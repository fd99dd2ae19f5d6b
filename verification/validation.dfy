/**
 * Schema validators: all-or-nothing predicates over decoded, untrusted
 * values, plus `sanitizeString`. The library copies come first; the copies
 * the root component carries follow and are proved to agree with them.
 */
module Validation {
  import opened Wrappers
  import opened Text
  import opened Json

  /** `isValidTextSize`. */
  predicate IsValidTextSize(v: JsonValue) {
    v == JString("normal") || v == JString("large") || v == JString("xl")
  }

  /** `isValidTextSize` applied to a property that may be `undefined`. */
  predicate HasTextSize(v: JsonValue, key: string) {
    Prop(v, key).Some? && IsValidTextSize(Prop(v, key).value)
  }

  /** `isAccessibilitySettings`. */
  predicate IsAccessibilitySettings(v: JsonValue) {
    && IsTruthyObject(v)
    && HasTextSize(v, "textSize")
    && HasBool(v, "highContrast")
    && HasBool(v, "reduceMotion")
    && HasBool(v, "narration")
  }

  /** `obj.route === 'cultural' || obj.route === 'stem'`. */
  predicate HasRoute(v: JsonValue) {
    Prop(v, "route") == Some(JString("cultural")) || Prop(v, "route") == Some(JString("stem"))
  }

  /** `isJournalEntry`; the optional `standards` field is never inspected. */
  predicate IsJournalEntry(v: JsonValue) {
    && IsTruthyObject(v)
    && HasString(v, "id")
    && HasString(v, "plantName")
    && HasString(v, "date")
    && HasRoute(v)
    && HasString(v, "notes")
  }

  /** `isJournalEntryArray`: `Array.isArray(value) && value.every(isJournalEntry)`. */
  predicate IsJournalEntryArray(v: JsonValue) {
    v.JArray? && forall i :: 0 <= i < |v.items| ==> IsJournalEntry(v.items[i])
  }

  /** `isThemeMode`. */
  predicate IsThemeMode(v: JsonValue) {
    v == JString("light") || v == JString("dark")
  }

  /** Default `maxLength` of `sanitizeString`. */
  const DefaultMaxLength: int := 10000

  /** `String.prototype.slice(0, end)`: a negative `end` counts from the end. */
  function SliceEnd(len: nat, end: int): (k: nat)
    ensures k <= len
    ensures 0 <= end ==> k == if end < len then end else len
  {
    if end < 0 then (if len + end < 0 then 0 else len + end)
    else if end < len then end
    else len
  }

  /** `sanitizeString(input, maxLength)`: "" for non-strings, else the first `maxLength` characters, trimmed. */
  function SanitizeString(input: JsonValue, maxLength: int): (r: string)
    ensures !input.JString? ==> r == ""
    ensures 0 <= maxLength ==> |r| <= maxLength
    ensures r == [] || (!IsJsWhitespace(r[0]) && !IsJsWhitespace(r[|r| - 1]))
    ensures input.JString? ==> r == Trim(input.s[..SliceEnd(|input.s|, maxLength)])
  {
    match input
    case JString(s) => Trim(s[..SliceEnd(|s|, maxLength)])
    case _ => ""
  }

  /** Sanitising a sanitised string with the same non-negative bound changes nothing. */
  lemma {:induction false} SanitizeIdempotent(input: JsonValue, maxLength: int)
    requires 0 <= maxLength
    ensures SanitizeString(JString(SanitizeString(input, maxLength)), maxLength)
            == SanitizeString(input, maxLength)
  {
    var r := SanitizeString(input, maxLength);
    assert r[..SliceEnd(|r|, maxLength)] == r;
    if input.JString? {
      TrimIdempotent(input.s[..SliceEnd(|input.s|, maxLength)]);
    }
  }

  /**
   * With the default bound, a string of at most ten thousand characters is
   * only trimmed, and a longer one is cut to its first ten thousand first.
   */
  lemma SanitizeDefault(s: string)
    ensures |s| <= DefaultMaxLength ==> SanitizeString(JString(s), DefaultMaxLength) == Trim(s)
    ensures |s| > DefaultMaxLength ==> SanitizeString(JString(s), DefaultMaxLength) == Trim(s[..10000])
  {
    assert s[..|s|] == s;
  }

  // The copies in the root component (App.tsx).

  /** The text sizes the root component's validator lists, as possibly-undefined values. */
  const AppTextSizes: seq<Option<JsonValue>> :=
    [Some(JString("normal")), Some(JString("large")), Some(JString("xl"))]

  /** The root component's `isAccessibilitySettings`: `textSizes.includes(candidate.textSize)`. */
  predicate AppIsAccessibilitySettings(v: JsonValue) {
    && (v.JArray? || v.JObject?)
    && Prop(v, "textSize") in AppTextSizes
    && (match Prop(v, "highContrast") case Some(JBool(_)) => true case _ => false)
    && (match Prop(v, "reduceMotion") case Some(JBool(_)) => true case _ => false)
    && (match Prop(v, "narration") case Some(JBool(_)) => true case _ => false)
  }

  /** The root component's `isJournalEntry`. */
  predicate AppIsJournalEntry(v: JsonValue) {
    && (v.JArray? || v.JObject?)
    && (match Prop(v, "id") case Some(JString(_)) => true case _ => false)
    && (match Prop(v, "plantName") case Some(JString(_)) => true case _ => false)
    && (match Prop(v, "date") case Some(JString(_)) => true case _ => false)
    && Prop(v, "route") in [Some(JString("cultural")), Some(JString("stem"))]
    && (match Prop(v, "notes") case Some(JString(_)) => true case _ => false)
  }

  /** The root component's `isJournalEntryArray`. */
  predicate AppIsJournalEntryArray(v: JsonValue) {
    match v
    case JArray(items) => forall e | e in items :: AppIsJournalEntry(e)
    case _ => false
  }

  /** Both copies of the accessibility validator accept exactly the same values. */
  lemma AccessibilityValidatorsAgree(v: JsonValue)
    ensures AppIsAccessibilitySettings(v) <==> IsAccessibilitySettings(v)
  {
  }

  /** Both copies of the entry validator accept exactly the same values. */
  lemma EntryValidatorsAgree(v: JsonValue)
    ensures AppIsJournalEntry(v) <==> IsJournalEntry(v)
  {
  }

  /** Both copies of the journal validator accept exactly the same values. */
  lemma JournalValidatorsAgree(v: JsonValue)
    ensures AppIsJournalEntryArray(v) <==> IsJournalEntryArray(v)
  {
    if v.JArray? {
      forall e | e in v.items ensures AppIsJournalEntry(e) <==> IsJournalEntry(e) {
        EntryValidatorsAgree(e);
      }
    }
  }

  /** The empty array is a valid journal. */
  lemma EmptyJournalValid()
    ensures IsJournalEntryArray(JArray([]))
  {
  }

  /** One invalid element spoils the whole array; a valid one keeps it valid. */
  lemma JournalAppend(items: seq<JsonValue>, e: JsonValue)
    ensures IsJournalEntryArray(JArray(items + [e]))
            <==> IsJournalEntryArray(JArray(items)) && IsJournalEntry(e)
  {
    var all := items + [e];
    assert all[|items|] == e;
    assert forall i :: 0 <= i < |items| ==> all[i] == items[i];
  }

  /** Non-objects, including `null`, strings and booleans, are never settings or entries. */
  lemma NonObjectsRejected(v: JsonValue)
    requires !v.JObject?
    ensures !IsAccessibilitySettings(v) && !IsJournalEntry(v)
  {
  }
}
