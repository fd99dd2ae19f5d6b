/**
 * The four persisted slices: their storage keys, their encodings, the
 * write-on-change persistence effects and the start-up hydration that reads
 * them back through the schema validators.
 */
module Persistence {
  import opened Wrappers
  import opened Json
  import opened Domain
  import opened Validation

  /** `STORAGE_KEYS`. */
  datatype Key = AccessibilityKey | ThemeKey | CameraKey | JournalKey

  function KeyName(k: Key): string {
    match k
    case AccessibilityKey => "rr_accessibility"
    case ThemeKey => "rr_theme"
    case CameraKey => "rr_camera"
    case JournalKey => "rr_journal"
  }

  /** `localStorage`, restricted to the application's keys. */
  type Storage = map<Key, string>

  /** The persisted part of the application state. */
  datatype Slices = Slices(
    accessibility: AccessibilitySettings,
    theme: ThemeMode,
    cameraGranted: bool,
    journal: seq<Entry>)

  /** The slices' start-up values. */
  const DefaultSlices: Slices := Slices(DefaultAccessibility, Light, false, [])

  // Typed values to and from decoded JSON.

  function TextSizeFromJson(v: JsonValue): (t: TextSize)
    requires IsValidTextSize(v)
    ensures JString(TextSizeName(t)) == v
  {
    if v == JString("normal") then Normal
    else if v == JString("large") then Large
    else Xl
  }

  function RouteFromJson(v: JsonValue): (r: Route)
    requires v == JString("cultural") || v == JString("stem")
    ensures JString(RouteName(r)) == v
  {
    if v == JString("cultural") then CulturalRoute else StemRoute
  }

  /** The settings a valid decoded value describes; other properties are dropped. */
  function AccessibilityFromJson(v: JsonValue): (a: AccessibilitySettings)
    requires IsAccessibilitySettings(v)
    ensures Prop(v, "textSize") == Some(JString(TextSizeName(a.textSize)))
    ensures Prop(v, "highContrast") == Some(JBool(a.highContrast))
    ensures Prop(v, "reduceMotion") == Some(JBool(a.reduceMotion))
    ensures Prop(v, "narration") == Some(JBool(a.narration))
  {
    AccessibilitySettings(
      TextSizeFromJson(v.members["textSize"]),
      v.members["highContrast"].b,
      v.members["reduceMotion"].b,
      v.members["narration"].b)
  }

  /** The object `JSON.stringify` is handed for the settings slice. */
  function AccessibilityToJson(a: AccessibilitySettings): (v: JsonValue)
    ensures IsAccessibilitySettings(v)
    ensures AccessibilityFromJson(v) == a
  {
    JObject(map[
      "textSize" := JString(TextSizeName(a.textSize)),
      "highContrast" := JBool(a.highContrast),
      "reduceMotion" := JBool(a.reduceMotion),
      "narration" := JBool(a.narration)])
  }

  predicate AllStrings(items: seq<JsonValue>) {
    forall i :: 0 <= i < |items| ==> items[i].JString?
  }

  /** `standards` as the model keeps it: a list of strings, or absent. */
  function StandardsFromJson(v: Option<JsonValue>): (r: Option<seq<string>>)
    ensures r.Some? <==> v.Some? && v.value.JArray? && AllStrings(v.value.items)
    ensures r.Some? ==> |r.value| == |v.value.items|
    ensures r.Some? ==> forall i :: 0 <= i < |r.value| ==> v.value.items[i] == JString(r.value[i])
  {
    match v
    case Some(JArray(items)) =>
      if AllStrings(items) then Some(seq(|items|, i requires 0 <= i < |items| => items[i].s)) else None
    case _ => None
  }

  function StandardsToJson(ss: seq<string>): (v: JsonValue)
    ensures StandardsFromJson(Some(v)) == Some(ss)
  {
    var v := JArray(seq(|ss|, i requires 0 <= i < |ss| => JString(ss[i])));
    assert StandardsFromJson(Some(v)).value == ss;
    v
  }

  /** The entry a valid decoded value describes. */
  function EntryFromJson(v: JsonValue): (e: Entry)
    requires IsJournalEntry(v)
    ensures Prop(v, "id") == Some(JString(e.id))
    ensures Prop(v, "plantName") == Some(JString(e.plantName))
    ensures Prop(v, "date") == Some(JString(e.date))
    ensures Prop(v, "route") == Some(JString(RouteName(e.route)))
    ensures Prop(v, "notes") == Some(JString(e.notes))
    ensures e.standards == StandardsFromJson(Prop(v, "standards"))
  {
    var m := v.members;
    Entry(m["id"].s, m["plantName"].s, m["date"].s, RouteFromJson(m["route"]), m["notes"].s,
          StandardsFromJson(Prop(v, "standards")))
  }

  /** The object `JSON.stringify` sees for an entry; an absent `standards` is omitted. */
  function EntryToJson(e: Entry): (v: JsonValue)
    ensures IsJournalEntry(v)
    ensures EntryFromJson(v) == e
  {
    var fields := map[
      "id" := JString(e.id),
      "plantName" := JString(e.plantName),
      "date" := JString(e.date),
      "route" := JString(RouteName(e.route)),
      "notes" := JString(e.notes)];
    match e.standards
    case None => JObject(fields)
    case Some(ss) => JObject(fields["standards" := StandardsToJson(ss)])
  }

  function JournalFromJson(v: JsonValue): (j: seq<Entry>)
    requires IsJournalEntryArray(v)
    ensures |j| == |v.items|
    ensures forall i :: 0 <= i < |j| ==> j[i] == EntryFromJson(v.items[i])
  {
    seq(|v.items|, i requires 0 <= i < |v.items| => EntryFromJson(v.items[i]))
  }

  function JournalToJson(j: seq<Entry>): (v: JsonValue)
    ensures IsJournalEntryArray(v)
    ensures JournalFromJson(v) == j
  {
    JArray(seq(|j|, i requires 0 <= i < |j| => EntryToJson(j[i])))
  }

  // What each validator accepts, in terms of the typed values.

  /** `isValidTextSize` accepts exactly the names of the three text sizes. */
  lemma TextSizeNames(v: JsonValue)
    ensures IsValidTextSize(v) <==> exists t: TextSize :: v == JString(TextSizeName(t))
  {
    if IsValidTextSize(v) {
      var t := TextSizeFromJson(v);
      assert v == JString(TextSizeName(t));
    }
  }

  /** `isThemeMode` accepts exactly the names of the two modes. */
  lemma ThemeModeNames(v: JsonValue)
    ensures IsThemeMode(v) <==> exists m: ThemeMode :: v == JString(ThemeName(m))
  {
    if IsThemeMode(v) {
      var m := if v == JString("light") then Light else Dark;
      assert v == JString(ThemeName(m));
    }
  }

  /** A stored theme word is taken back exactly when the validator accepts it as a string. */
  lemma ThemeModeStored(t: string)
    ensures IsThemeMode(JString(t)) <==> StoredTheme(map[ThemeKey := t]).Some?
  {
  }

  /**
   * `isAccessibilitySettings` accepts exactly the objects that carry the four
   * fields of some settings with their types; other properties may be present.
   */
  lemma AccessibilityShape(v: JsonValue)
    ensures IsAccessibilitySettings(v) <==> exists a: AccessibilitySettings :: Extends(v, AccessibilityToJson(a))
  {
    if IsAccessibilitySettings(v) {
      var a := AccessibilityFromJson(v);
      assert Extends(v, AccessibilityToJson(a));
    }
    if a: AccessibilitySettings :| Extends(v, AccessibilityToJson(a)) {
      assert Prop(v, "textSize") == Some(JString(TextSizeName(a.textSize)));
      assert Prop(v, "highContrast") == Some(JBool(a.highContrast));
      assert Prop(v, "reduceMotion") == Some(JBool(a.reduceMotion));
      assert Prop(v, "narration") == Some(JBool(a.narration));
    }
  }

  /**
   * `isJournalEntry` accepts exactly the objects that carry the five required
   * fields of some entry; `standards` and any other property may be present.
   */
  lemma EntryShape(v: JsonValue)
    ensures IsJournalEntry(v) <==> exists e: Entry :: e.standards.None? && Extends(v, EntryToJson(e))
  {
    if IsJournalEntry(v) {
      var e := EntryFromJson(v).(standards := None);
      assert Extends(v, EntryToJson(e));
    }
    if e: Entry :| e.standards.None? && Extends(v, EntryToJson(e)) {
      assert Prop(v, "id") == Some(JString(e.id));
      assert Prop(v, "plantName") == Some(JString(e.plantName));
      assert Prop(v, "date") == Some(JString(e.date));
      assert Prop(v, "route") == Some(JString(RouteName(e.route)));
      assert Prop(v, "notes") == Some(JString(e.notes));
    }
  }

  /** `isJournalEntryArray` accepts exactly the arrays of which every element has the shape of an entry. */
  lemma JournalShape(v: JsonValue)
    ensures IsJournalEntryArray(v)
            <==> v.JArray? && forall i :: 0 <= i < |v.items| ==>
                   exists e: Entry :: e.standards.None? && Extends(v.items[i], EntryToJson(e))
  {
    if v.JArray? {
      forall i | 0 <= i < |v.items|
        ensures IsJournalEntry(v.items[i]) <==> exists e: Entry :: e.standards.None? && Extends(v.items[i], EntryToJson(e))
      {
        EntryShape(v.items[i]);
      }
      assert IsJournalEntryArray(v) <==> forall i :: 0 <= i < |v.items| ==> IsJournalEntry(v.items[i]);
    }
  }

  // Writing.

  /** The text each persistence effect writes for its slice. */
  function Encode(codec: Codec, k: Key, sl: Slices): (r: string)
    ensures k == ThemeKey ==> StoredTheme(map[ThemeKey := r]) == Some(sl.theme)
    ensures k == CameraKey ==> StoredCamera(map[CameraKey := r]) == Some(sl.cameraGranted)
    ensures Faithful(codec) && k == AccessibilityKey ==>
              ReadJson(codec, map[k := r], k) == Got(Some(AccessibilityToJson(sl.accessibility)))
    ensures Faithful(codec) && k == JournalKey ==>
              ReadJson(codec, map[k := r], k) == Got(Some(JournalToJson(sl.journal)))
  {
    match k
    case AccessibilityKey => codec.stringify(AccessibilityToJson(sl.accessibility))
    case ThemeKey => ThemeName(sl.theme)
    case CameraKey => if sl.cameraGranted then "true" else "false"
    case JournalKey => codec.stringify(JournalToJson(sl.journal))
  }

  /** The slice stored under `k` is the same in `a` and `b`. */
  predicate SameSlice(k: Key, a: Slices, b: Slices) {
    match k
    case AccessibilityKey => a.accessibility == b.accessibility
    case ThemeKey => a.theme == b.theme
    case CameraKey => a.cameraGranted == b.cameraGranted
    case JournalKey => a.journal == b.journal
  }

  function WriteIfChanged(codec: Codec, st: Storage, k: Key, before: Slices, after: Slices): Storage {
    if SameSlice(k, before, after) then st else st[k := Encode(codec, k, after)]
  }

  /**
   * The four persistence effects after a render: each slice whose value
   * changed is written again; the others' keys are left as they are.
   */
  function WriteChanged(codec: Codec, st: Storage, before: Slices, after: Slices): (r: Storage)
    ensures forall k :: !SameSlice(k, before, after) ==> k in r && r[k] == Encode(codec, k, after)
    ensures forall k :: SameSlice(k, before, after) ==> (k in r <==> k in st) && (k in st ==> r[k] == st[k])
  {
    var s1 := WriteIfChanged(codec, st, AccessibilityKey, before, after);
    var s2 := WriteIfChanged(codec, s1, ThemeKey, before, after);
    var s3 := WriteIfChanged(codec, s2, CameraKey, before, after);
    WriteIfChanged(codec, s3, JournalKey, before, after)
  }

  /** Every key other than `k` is present after exactly when before, with the same text. */
  predicate KeptExcept(k: Key, before: Storage, after: Storage) {
    forall j :: j != k ==> (j in after <==> j in before) && (j in before ==> after[j] == before[j])
  }

  /** Every key holds the encoding of its slice. */
  predicate Mirrors(codec: Codec, st: Storage, sl: Slices) {
    forall k :: Holds(codec, st, k, sl)
  }

  /** `k` is present and holds its slice's encoding. */
  predicate Holds(codec: Codec, st: Storage, k: Key, sl: Slices) {
    k in st && st[k] == Encode(codec, k, sl)
  }

  /** A property of every key follows from its four instances. */
  lemma EveryKey(codec: Codec, st: Storage, sl: Slices)
    requires Holds(codec, st, AccessibilityKey, sl) && Holds(codec, st, ThemeKey, sl)
    requires Holds(codec, st, CameraKey, sl) && Holds(codec, st, JournalKey, sl)
    ensures Mirrors(codec, st, sl)
  {
    forall k ensures Holds(codec, st, k, sl) {
      match k
      case AccessibilityKey => {}
      case ThemeKey => {}
      case CameraKey => {}
      case JournalKey => {}
    }
  }

  /** The four persistence effects on mount, which fire whatever the values. */
  function WriteAll(codec: Codec, st: Storage, sl: Slices): (r: Storage)
    ensures Mirrors(codec, r, sl)
  {
    var r := st[AccessibilityKey := Encode(codec, AccessibilityKey, sl)]
               [ThemeKey := Encode(codec, ThemeKey, sl)]
               [CameraKey := Encode(codec, CameraKey, sl)]
               [JournalKey := Encode(codec, JournalKey, sl)];
    EveryKey(codec, r, sl);
    r
  }

  /**
   * Storage agrees with the slices: a present key holds its slice's encoding,
   * and an absent key belongs to a slice still at its default.
   */
  predicate Consistent(codec: Codec, st: Storage, sl: Slices) {
    forall k :: if k in st then st[k] == Encode(codec, k, sl) else SameSlice(k, sl, DefaultSlices)
  }

  lemma MirrorsConsistent(codec: Codec, st: Storage, sl: Slices)
    requires Mirrors(codec, st, sl)
    ensures Consistent(codec, st, sl)
  {
    forall k ensures k in st && st[k] == Encode(codec, k, sl) {
      assert Holds(codec, st, k, sl);
    }
  }

  // Reading.

  /** What one guarded `JSON.parse` read produced. */
  datatype Read = Threw | Got(value: Option<JsonValue>)

  /**
   * `getItem` then, for a non-empty text, `JSON.parse`: an absent key and the
   * empty string are skipped without parsing.
   */
  function ReadJson(codec: Codec, st: Storage, k: Key): Read {
    if k !in st || st[k] == "" then Got(None)
    else match codec.parse(st[k])
      case None => Threw
      case Some(v) => Got(Some(v))
  }

  /** The stored theme, when it is literally `light` or `dark`. */
  function StoredTheme(st: Storage): (r: Option<ThemeMode>)
    ensures r.Some? <==> ThemeKey in st && (st[ThemeKey] == "light" || st[ThemeKey] == "dark")
    ensures r.Some? ==> ThemeName(r.value) == st[ThemeKey]
  {
    if ThemeKey in st && st[ThemeKey] == "light" then Some(Light)
    else if ThemeKey in st && st[ThemeKey] == "dark" then Some(Dark)
    else None
  }

  /** The stored camera flag, when it is literally `true` or `false`. */
  function StoredCamera(st: Storage): (r: Option<bool>)
    ensures r.Some? <==> CameraKey in st && (st[CameraKey] == "true" || st[CameraKey] == "false")
    ensures r == Some(true) <==> CameraKey in st && st[CameraKey] == "true"
  {
    if CameraKey in st && st[CameraKey] == "true" then Some(true)
    else if CameraKey in st && st[CameraKey] == "false" then Some(false)
    else None
  }

  /** Overwrite the settings slice only with a decoded value that passes its validator. */
  function TakeAccessibility(sl: Slices, got: Option<JsonValue>): Slices {
    if got.Some? && IsAccessibilitySettings(got.value)
    then sl.(accessibility := AccessibilityFromJson(got.value))
    else sl
  }

  /** Overwrite the journal slice only with a decoded value that passes its validator. */
  function TakeJournal(sl: Slices, got: Option<JsonValue>): Slices {
    if got.Some? && IsJournalEntryArray(got.value)
    then sl.(journal := JournalFromJson(got.value))
    else sl
  }

  /**
   * The start-up hydration effect. One `try` wraps all four reads, so a parse
   * failure on the settings leaves every slice at its default, and one on the
   * journal keeps the three slices read before it.
   */
  function Hydrate(codec: Codec, st: Storage): (r: Slices)
    ensures ReadJson(codec, st, AccessibilityKey) == Threw ==> r == DefaultSlices
    ensures ReadJson(codec, st, JournalKey) == Threw ==> r.journal == []
  {
    match ReadJson(codec, st, AccessibilityKey)
    case Threw => DefaultSlices
    case Got(a) =>
      var s1 := TakeAccessibility(DefaultSlices, a);
      var s2 := if StoredTheme(st).Some? then s1.(theme := StoredTheme(st).value) else s1;
      var s3 := if StoredCamera(st).Some? then s2.(cameraGranted := StoredCamera(st).value) else s2;
      match ReadJson(codec, st, JournalKey)
      case Threw => s3
      case Got(j) => TakeJournal(s3, j)
  }

  /**
   * Round trip: storage that agrees with some slices is hydrated back to
   * exactly those slices.
   */
  lemma {:induction false} HydrateConsistent(codec: Codec, st: Storage, sl: Slices)
    requires Faithful(codec)
    requires Consistent(codec, st, sl)
    ensures Hydrate(codec, st) == sl
  {
    var a := ReadJson(codec, st, AccessibilityKey);
    var j := ReadJson(codec, st, JournalKey);
    AccessibilityReadsBack(codec, st, sl);
    JournalReadsBack(codec, st, sl);
    ThemeAndCameraReadBack(codec, st, sl);
    var s1 := TakeAccessibility(DefaultSlices, a.value);
    var s2 := if StoredTheme(st).Some? then s1.(theme := StoredTheme(st).value) else s1;
    var s3 := if StoredCamera(st).Some? then s2.(cameraGranted := StoredCamera(st).value) else s2;
    assert Hydrate(codec, st) == TakeJournal(s3, j.value);
  }

  lemma AccessibilityReadsBack(codec: Codec, st: Storage, sl: Slices)
    requires Faithful(codec)
    requires Consistent(codec, st, sl)
    ensures ReadJson(codec, st, AccessibilityKey).Got?
    ensures TakeAccessibility(DefaultSlices, ReadJson(codec, st, AccessibilityKey).value).accessibility
            == sl.accessibility
  {
    assert SameSlice(AccessibilityKey, sl, DefaultSlices) || st[AccessibilityKey] == Encode(codec, AccessibilityKey, sl);
    var aj := AccessibilityToJson(sl.accessibility);
    assert codec.stringify(aj) != "" && codec.parse(codec.stringify(aj)) == Some(aj);
  }

  lemma JournalReadsBack(codec: Codec, st: Storage, sl: Slices)
    requires Faithful(codec)
    requires Consistent(codec, st, sl)
    ensures ReadJson(codec, st, JournalKey).Got?
    ensures forall s: Slices :: s.journal == [] ==> TakeJournal(s, ReadJson(codec, st, JournalKey).value).journal == sl.journal
  {
    assert SameSlice(JournalKey, sl, DefaultSlices) || st[JournalKey] == Encode(codec, JournalKey, sl);
    var jj := JournalToJson(sl.journal);
    assert codec.stringify(jj) != "" && codec.parse(codec.stringify(jj)) == Some(jj);
  }

  lemma ThemeAndCameraReadBack(codec: Codec, st: Storage, sl: Slices)
    requires Consistent(codec, st, sl)
    ensures StoredTheme(st).GetOr(Light) == sl.theme
    ensures StoredCamera(st).GetOr(false) == sl.cameraGranted
  {
    assert SameSlice(ThemeKey, sl, DefaultSlices) || st[ThemeKey] == Encode(codec, ThemeKey, sl);
    assert SameSlice(CameraKey, sl, DefaultSlices) || st[CameraKey] == Encode(codec, CameraKey, sl);
  }

  /**
   * Corruption resilience: a settings text that decodes to a value failing
   * the validator leaves the settings at their default, without affecting
   * the other slices' reads.
   */
  lemma InvalidAccessibilityIgnored(codec: Codec, st: Storage, v: JsonValue)
    requires AccessibilityKey in st && st[AccessibilityKey] != ""
    requires codec.parse(st[AccessibilityKey]) == Some(v)
    requires !IsAccessibilitySettings(v)
    ensures Hydrate(codec, st).accessibility == DefaultAccessibility
    ensures Hydrate(codec, st).theme == StoredTheme(st).GetOr(Light)
    ensures Hydrate(codec, st).cameraGranted == StoredCamera(st).GetOr(false)
  {
  }

  /**
   * Hydration overwrites a default only with what passes its check: once the
   * settings read has not thrown, the theme and camera flag come from their
   * stored words when those are valid, and the settings and the journal come
   * from decoded values that pass their validators, each slice keeping its
   * default otherwise.
   */
  lemma HydrateTakesOnlyValid(codec: Codec, st: Storage)
    ensures ReadJson(codec, st, AccessibilityKey).Got? ==>
              && Hydrate(codec, st).theme == StoredTheme(st).GetOr(Light)
              && Hydrate(codec, st).cameraGranted == StoredCamera(st).GetOr(false)
    ensures var a := ReadJson(codec, st, AccessibilityKey);
            a.Got? ==>
              Hydrate(codec, st).accessibility
              == if a.value.Some? && IsAccessibilitySettings(a.value.value)
                 then AccessibilityFromJson(a.value.value) else DefaultAccessibility
    ensures var a := ReadJson(codec, st, AccessibilityKey);
            var j := ReadJson(codec, st, JournalKey);
            a.Got? ==>
              Hydrate(codec, st).journal
              == if j.Got? && j.value.Some? && IsJournalEntryArray(j.value.value)
                 then JournalFromJson(j.value.value) else []
  {
  }

  /** A stored journal whose one entry has only a numeric id is dropped whole. */
  lemma MalformedJournalIgnored(codec: Codec, st: Storage)
    requires JournalKey in st && st[JournalKey] != ""
    requires codec.parse(st[JournalKey]) == Some(JArray([JObject(map["id" := JNumber(1)])]))
    ensures Hydrate(codec, st).journal == []
  {
    var v := JArray([JObject(map["id" := JNumber(1)])]);
    assert !IsJournalEntry(v.items[0]);
  }

  /** Storage with none of the keys hydrates to the defaults. */
  lemma HydrateEmpty(codec: Codec)
    ensures Hydrate(codec, map[]) == DefaultSlices
  {
  }
}
