/**
 * The application state controller: the in-memory state, the mutation
 * operations the screens call, the navigation guard, and the reactive effects
 * (persistence and the narration announcement) that follow each mutation.
 * Each operation together with the effects it triggers is one step.
 */
module Controller {
  import opened Wrappers
  import opened Json
  import opened Screens
  import opened Navigation
  import opened Domain
  import opened Persistence

  datatype AppState = AppState(
    screen: Screen,
    accessibility: AccessibilitySettings,
    cameraGranted: bool,
    journal: seq<Entry>,
    currentPlant: Option<PlantDetails>,
    theme: ThemeMode,
    offline: bool,
    announcement: string,
    storage: Storage)

  function SlicesOf(s: AppState): Slices {
    Slices(s.accessibility, s.theme, s.cameraGranted, s.journal)
  }

  /** The live-region text the narration effect derives from the state. */
  function Announcement(narration: bool, screen: Screen): (r: string)
    ensures narration ==> r == "Navigated to " + Heading(screen)
    ensures !narration ==> r == ""
  {
    if narration then "Navigated to " + Heading(screen) else ""
  }

  /** With narration on, two screens are announced alike only if they are the same screen. */
  lemma AnnouncementNamesScreen(a: Screen, b: Screen)
    ensures Announcement(true, a) == Announcement(true, b) <==> a == b
  {
    if Announcement(true, a) == Announcement(true, b) {
      var prefix := "Navigated to ";
      assert Heading(a) == Announcement(true, a)[|prefix|..];
      assert Heading(b) == Announcement(true, b)[|prefix|..];
      HeadingInjective(a, b);
    }
  }

  /**
   * The effects that run after a render that went from `before` to `after`:
   * each persistence effect whose slice changed writes it, and the narration
   * effect, whose inputs are the narration flag and the screen, recomputes the
   * announcement when either changed.
   */
  function Settle(codec: Codec, before: AppState, after: AppState): (r: AppState)
    ensures r.screen == after.screen && SlicesOf(r) == SlicesOf(after)
    ensures r.currentPlant == after.currentPlant && r.offline == after.offline
    ensures forall k :: !SameSlice(k, SlicesOf(before), SlicesOf(after)) ==> Holds(codec, r.storage, k, SlicesOf(after))
    ensures forall k :: SameSlice(k, SlicesOf(before), SlicesOf(after)) ==>
              (k in r.storage <==> k in after.storage) && (k in after.storage ==> r.storage[k] == after.storage[k])
    ensures before.screen != after.screen || before.accessibility.narration != after.accessibility.narration ==>
              r.announcement == Announcement(after.accessibility.narration, after.screen)
    ensures before.screen == after.screen && before.accessibility.narration == after.accessibility.narration ==>
              r.announcement == after.announcement
  {
    var announcement :=
      if before.screen != after.screen || before.accessibility.narration != after.accessibility.narration
      then Announcement(after.accessibility.narration, after.screen)
      else after.announcement;
    after.(storage := WriteChanged(codec, after.storage, SlicesOf(before), SlicesOf(after)),
           announcement := announcement)
  }

  /**
   * The invariant every reachable state keeps: the announcement is the one the
   * narration rule derives, and storage agrees with the persisted slices.
   */
  predicate Valid(codec: Codec, s: AppState) {
    && s.announcement == Announcement(s.accessibility.narration, s.screen)
    && Consistent(codec, s.storage, SlicesOf(s))
  }

  // Navigation.

  /** The screen the functional update in `go` settles on. */
  function GuardedTarget(current: Screen, to: Screen): (r: Screen)
    ensures r == to || r == current
    ensures r == to <==> to == current || IsEdge(current, to)
  {
    if current == to then current
    else if to in AllowedTransitions(current) then to
    else current
  }

  /**
   * `go(to)`: a request for the current screen changes nothing, an edge of the
   * table is committed together with the new announcement, and any other
   * request is refused with the state left as it was.
   */
  function Go(s: AppState, to: Screen): (r: AppState)
    ensures to == s.screen ==> r == s
    ensures !IsEdge(s.screen, to) ==> r == s
    ensures IsEdge(s.screen, to) ==>
              r == s.(screen := to, announcement := Announcement(s.accessibility.narration, to))
  {
    NoSelfLoops(s.screen);
    var next := GuardedTarget(s.screen, to);
    if next == s.screen then s
    else s.(screen := next, announcement := Announcement(s.accessibility.narration, next))
  }

  /** `go` is the screen update followed by the effects it triggers. */
  lemma GoSettles(codec: Codec, s: AppState, to: Screen)
    ensures Go(s, to) == Settle(codec, s, s.(screen := GuardedTarget(s.screen, to)))
  {
  }

  /** Successive `go` requests. */
  function Walk(s: AppState, targets: seq<Screen>): AppState
    decreases |targets|
  {
    if targets == [] then s else Walk(Go(s, targets[0]), targets[1..])
  }

  /** Requests that follow a path of the graph are all committed and end at its last screen. */
  lemma {:induction false} WalkFollowsPath(s: AppState, targets: seq<Screen>)
    requires IsPath([s.screen] + targets)
    ensures Walk(s, targets).screen == ([s.screen] + targets)[|targets|]
    decreases |targets|
  {
    if targets != [] {
      var p := [s.screen] + targets;
      assert IsEdge(p[0], p[1]);
      var s1 := Go(s, targets[0]);
      assert s1.screen == targets[0];
      var q := [s1.screen] + targets[1..];
      assert q == p[1..];
      PathTail(p);
      WalkFollowsPath(s1, targets[1..]);
      assert q[|targets[1..]|] == p[|targets|];
    }
  }

  /** From any state, a sequence of `go` requests reaches any requested screen. */
  lemma {:induction false} EveryScreenReachable(s: AppState, b: Screen)
    ensures Walk(s, PathBetween(s.screen, b)[1..]).screen == b
  {
    var p := PathBetween(s.screen, b);
    assert [s.screen] + p[1..] == p;
    WalkFollowsPath(s, p[1..]);
  }

  /** The offline banner's `go('offline')` takes effect only from home. */
  lemma OfflineBannerGuard(s: AppState)
    ensures Go(s, Offline).screen == (if s.screen == Home then Offline else s.screen)
  {
    OfflineOnlyFromHome(s.screen);
  }

  /** `welcome` does not lead to `cultural`: the request leaves the screen at welcome. */
  lemma WelcomeToCulturalRefused(s: AppState)
    requires s.screen == Welcome
    ensures Go(s, Cultural) == s
  {
  }

  /** Start on welcome, go to permissions, then home; a request for `cultural` from welcome is refused. */
  lemma OnboardingScenario(s: AppState)
    requires s.screen == Welcome
    ensures Go(s, Permissions).screen == Permissions
    ensures Go(Go(s, Permissions), Home).screen == Home
    ensures Go(s, Cultural).screen == Welcome
  {
  }

  // Mutations of the persisted slices.

  /** `setAccessibility`: replace the settings; new settings are written as JSON. */
  function SetAccessibility(codec: Codec, s: AppState, a: AccessibilitySettings): (r: AppState)
    ensures r.accessibility == a && r.screen == s.screen && r.theme == s.theme
    ensures r.cameraGranted == s.cameraGranted && r.journal == s.journal
    ensures a != s.accessibility ==>
              AccessibilityKey in r.storage && r.storage[AccessibilityKey] == codec.stringify(AccessibilityToJson(a))
    ensures a == s.accessibility ==> r.storage == s.storage
    ensures KeptExcept(AccessibilityKey, s.storage, r.storage)
    ensures r.currentPlant == s.currentPlant && r.offline == s.offline
    ensures a.narration == s.accessibility.narration ==> r.announcement == s.announcement
    ensures a.narration != s.accessibility.narration ==> r.announcement == Announcement(a.narration, s.screen)
  {
    Settle(codec, s, s.(accessibility := a))
  }

  /**
   * `updateAccessibility(patch)`: the fields present in the patch are
   * overwritten, every other field keeps its prior value, and the merged
   * settings are written when they differ from the old ones.
   */
  function UpdateAccessibility(codec: Codec, s: AppState, patch: AccessibilityPatch): (r: AppState)
    ensures patch.textSize.Some? ==> r.accessibility.textSize == patch.textSize.value
    ensures patch.textSize.None? ==> r.accessibility.textSize == s.accessibility.textSize
    ensures patch.highContrast.Some? ==> r.accessibility.highContrast == patch.highContrast.value
    ensures patch.highContrast.None? ==> r.accessibility.highContrast == s.accessibility.highContrast
    ensures patch.reduceMotion.Some? ==> r.accessibility.reduceMotion == patch.reduceMotion.value
    ensures patch.reduceMotion.None? ==> r.accessibility.reduceMotion == s.accessibility.reduceMotion
    ensures patch.narration.Some? ==> r.accessibility.narration == patch.narration.value
    ensures patch.narration.None? ==> r.accessibility.narration == s.accessibility.narration
    ensures r.screen == s.screen && r.theme == s.theme && r.cameraGranted == s.cameraGranted
    ensures r.journal == s.journal && r.currentPlant == s.currentPlant && r.offline == s.offline
    ensures r.accessibility != s.accessibility ==>
              AccessibilityKey in r.storage
              && r.storage[AccessibilityKey] == Encode(codec, AccessibilityKey, SlicesOf(r))
    ensures KeptExcept(AccessibilityKey, s.storage, r.storage)
    ensures r.accessibility.narration == s.accessibility.narration ==> r.announcement == s.announcement
    ensures r.accessibility.narration != s.accessibility.narration ==>
              r.announcement == Announcement(r.accessibility.narration, s.screen)
  {
    Settle(codec, s, s.(accessibility := Merge(s.accessibility, patch)))
  }

  /** An empty patch changes nothing at all. */
  lemma EmptyPatchIsIdentity(codec: Codec, s: AppState)
    ensures UpdateAccessibility(codec, s, AccessibilityPatch(None, None, None, None)) == s
  {
  }

  /** `setTheme`: a new mode is stored as the bare word `light` or `dark`. */
  function SetTheme(codec: Codec, s: AppState, mode: ThemeMode): (r: AppState)
    ensures r.theme == mode && r.accessibility == s.accessibility && r.screen == s.screen
    ensures r.cameraGranted == s.cameraGranted && r.journal == s.journal
    ensures mode != s.theme ==> ThemeKey in r.storage && r.storage[ThemeKey] == ThemeName(mode)
    ensures mode == s.theme ==> r.storage == s.storage
    ensures KeptExcept(ThemeKey, s.storage, r.storage)
    ensures r.currentPlant == s.currentPlant && r.offline == s.offline && r.announcement == s.announcement
  {
    Settle(codec, s, s.(theme := mode))
  }

  /** `setCameraGranted`: a new flag is stored as the word `true` or `false`. */
  function SetCameraGranted(codec: Codec, s: AppState, granted: bool): (r: AppState)
    ensures r.cameraGranted == granted && r.accessibility == s.accessibility && r.theme == s.theme
    ensures r.screen == s.screen && r.journal == s.journal
    ensures granted != s.cameraGranted ==>
              CameraKey in r.storage && r.storage[CameraKey] == (if granted then "true" else "false")
    ensures granted == s.cameraGranted ==> r.storage == s.storage
    ensures KeptExcept(CameraKey, s.storage, r.storage)
    ensures r.currentPlant == s.currentPlant && r.offline == s.offline && r.announcement == s.announcement
  {
    Settle(codec, s, s.(cameraGranted := granted))
  }

  /** `setCurrentPlant`: session-only, so no effect runs. */
  function SetCurrentPlant(s: AppState, plant: Option<PlantDetails>): AppState {
    s.(currentPlant := plant)
  }

  /**
   * `addJournalEntry(draft)` with the clock's reading `date`: the journal
   * grows by one entry at its end, carrying the draft's fields and the date;
   * earlier entries are untouched and the new journal is written.
   */
  function AddJournalEntry(codec: Codec, s: AppState, draft: EntryDraft, date: string): (r: AppState)
    ensures |r.journal| == |s.journal| + 1
    ensures r.journal[..|s.journal|] == s.journal
    ensures r.journal[|s.journal|] == Dated(draft, date)
    ensures r.screen == s.screen && r.accessibility == s.accessibility && r.theme == s.theme
    ensures r.cameraGranted == s.cameraGranted && r.announcement == s.announcement
    ensures JournalKey in r.storage && r.storage[JournalKey] == Encode(codec, JournalKey, SlicesOf(r))
    ensures KeptExcept(JournalKey, s.storage, r.storage)
    ensures r.currentPlant == s.currentPlant && r.offline == s.offline
  {
    var r := Settle(codec, s, s.(journal := s.journal + [Dated(draft, date)]));
    assert r.journal != s.journal by { assert |r.journal| != |s.journal|; }
    r
  }

  /** Entries added one after another appear in the order they were added. */
  lemma {:induction false} JournalKeepsInsertionOrder(codec: Codec, s: AppState,
                                                       a: EntryDraft, da: string, b: EntryDraft, db: string)
    ensures AddJournalEntry(codec, AddJournalEntry(codec, s, a, da), b, db).journal
            == s.journal + [Dated(a, da), Dated(b, db)]
  {
    var s1 := AddJournalEntry(codec, s, a, da);
    var s2 := AddJournalEntry(codec, s1, b, db);
    assert s1.journal == s.journal + [Dated(a, da)];
    assert s2.journal == s1.journal + [Dated(b, db)];
  }

  /** The keys `resetApp` removes. */
  const AllKeys: set<Key> := {AccessibilityKey, ThemeKey, CameraKey, JournalKey}

  /**
   * `resetApp`: every in-memory slice back to its default and welcome as the
   * screen (set directly, not through the guard); the four keys are removed,
   * and then the persistence effects re-write each slice whose value changed.
   */
  function ResetApp(codec: Codec, s: AppState): (r: AppState)
    ensures r.screen == Welcome && r.accessibility == DefaultAccessibility
    ensures !r.cameraGranted && r.journal == [] && r.currentPlant.None? && r.theme == Light
    ensures r.offline == s.offline
    ensures forall k :: k in r.storage ==> r.storage[k] == Encode(codec, k, DefaultSlices)
  {
    var cleared := s.(screen := InitialScreen, accessibility := DefaultAccessibility,
                      cameraGranted := false, journal := [], currentPlant := None, theme := Light,
                      storage := s.storage - AllKeys);
    Settle(codec, s, cleared)
  }

  // Connectivity.

  /** The `online`/`offline` listener: `setIsOffline(!navigator.onLine)`. */
  function SetOnline(s: AppState, online: bool): AppState {
    s.(offline := !online)
  }

  /** `handleRetryConnection`: refresh the flag, and go home when online. */
  function RetryConnection(s: AppState, online: bool): (r: AppState)
    ensures r.offline == !online
    ensures !online ==> r.screen == s.screen
    ensures online && IsEdge(s.screen, Home) ==> r.screen == Home
    ensures online && !IsEdge(s.screen, Home) ==> r.screen == s.screen
    ensures r.screen != s.screen ==> r.announcement == Announcement(s.accessibility.narration, r.screen)
    ensures r.screen == s.screen ==> r.announcement == s.announcement
    ensures r.accessibility == s.accessibility && r.theme == s.theme && r.cameraGranted == s.cameraGranted
    ensures r.journal == s.journal && r.currentPlant == s.currentPlant && r.storage == s.storage
  {
    var s1 := SetOnline(s, online);
    if online then Go(s1, Home) else s1
  }

  /** The detection timer on the scanning screen: `setCurrentPlant(plant)` then `go('scan-detected')`. */
  function PlantDetected(s: AppState, plant: PlantDetails): (r: AppState)
    ensures r.currentPlant == Some(plant)
    ensures s.screen == ScanDetecting ==> r.screen == ScanDetected
    ensures IsEdge(s.screen, ScanDetected) ==> r.screen == ScanDetected
    ensures !IsEdge(s.screen, ScanDetected) ==> r.screen == s.screen
    ensures r.screen != s.screen ==> r.announcement == Announcement(s.accessibility.narration, r.screen)
    ensures r.screen == s.screen ==> r.announcement == s.announcement
    ensures r.accessibility == s.accessibility && r.theme == s.theme && r.cameraGranted == s.cameraGranted
    ensures r.journal == s.journal && r.offline == s.offline && r.storage == s.storage
  {
    Go(SetCurrentPlant(s, Some(plant)), ScanDetected)
  }

  // Start-up.

  /**
   * Process start: the initial values; on mount the hydration effect reads the
   * stored text first, then the four persistence effects write the initial
   * values and the narration and connectivity effects run; the render with the
   * hydrated slices then triggers the effects of the slices that changed.
   */
  function Startup(codec: Codec, stored: Storage, online: bool): (r: AppState)
    ensures SlicesOf(r) == Hydrate(codec, stored)
    ensures r.screen == Welcome && r.currentPlant.None? && r.offline == !online
    ensures Mirrors(codec, r.storage, SlicesOf(r))
  {
    var initial := AppState(InitialScreen, DefaultAccessibility, false, [], None, Light, false, "", stored);
    var mounted := initial.(storage := WriteAll(codec, stored, DefaultSlices),
                            offline := !online,
                            announcement := Announcement(DefaultAccessibility.narration, InitialScreen));
    var h := Hydrate(codec, stored);
    var r := Settle(codec, mounted, mounted.(accessibility := h.accessibility, theme := h.theme,
                                             cameraGranted := h.cameraGranted, journal := h.journal));
    assert SlicesOf(r) == h;
    forall k ensures Holds(codec, r.storage, k, h) {
      assert Holds(codec, mounted.storage, k, DefaultSlices);
      if SameSlice(k, DefaultSlices, h) {
        EncodeSameSlice(codec, k, DefaultSlices, h);
      }
    }
    r
  }

  /** Slices that agree under a key encode to the same text. */
  lemma EncodeSameSlice(codec: Codec, k: Key, a: Slices, b: Slices)
    requires SameSlice(k, a, b)
    ensures Encode(codec, k, a) == Encode(codec, k, b)
  {
  }

  /** A parse failure on the stored settings discards every stored slice: all four are re-written with defaults. */
  lemma StartupAfterSettingsParseFailure(codec: Codec, stored: Storage, online: bool)
    requires ReadJson(codec, stored, AccessibilityKey) == Threw
    ensures SlicesOf(Startup(codec, stored, online)) == DefaultSlices
    ensures Mirrors(codec, Startup(codec, stored, online).storage, DefaultSlices)
  {
  }

  // The invariant across every step.

  /**
   * Before the effects run, the key `k` is where it was, or was removed while
   * its slice is at its default.
   */
  predicate KeyKept(k: Key, before: AppState, after: AppState) {
    || (k in after.storage && k in before.storage && after.storage[k] == before.storage[k])
    || (k !in after.storage && k !in before.storage)
    || (k !in after.storage && SameSlice(k, SlicesOf(after), DefaultSlices))
  }

  /** The effects re-establish the invariant after any direct update that leaves the announcement and keeps each key. */
  lemma {:induction false} SettleValid(codec: Codec, before: AppState, after: AppState)
    requires Valid(codec, before)
    requires after.announcement == before.announcement
    requires forall k :: KeyKept(k, before, after)
    ensures Valid(codec, Settle(codec, before, after))
  {
    var r := Settle(codec, before, after);
    var b := SlicesOf(before);
    var a := SlicesOf(after);
    forall k ensures if k in r.storage then r.storage[k] == Encode(codec, k, a) else SameSlice(k, a, DefaultSlices) {
      assert KeyKept(k, before, after);
      if SameSlice(k, b, a) {
        EncodeSameSlice(codec, k, b, a);
      }
    }
  }

  /** Everything a screen or the environment can ask of the controller. */
  datatype Event =
    | Navigate(to: Screen)
    | ReplaceAccessibility(settings: AccessibilitySettings)
    | PatchAccessibility(patch: AccessibilityPatch)
    | ChangeTheme(mode: ThemeMode)
    | ChangeCamera(granted: bool)
    | ChangePlant(plant: Option<PlantDetails>)
    | AddEntry(draft: EntryDraft, date: string)
    | Reset
    | Connectivity(online: bool)
    | Retry(online: bool)
    | Detected(detected: PlantDetails)

  /** One event and the effects it triggers. */
  function Step(codec: Codec, s: AppState, e: Event): (r: AppState)
    ensures r.screen == s.screen || IsEdge(s.screen, r.screen) || (e.Reset? && r.screen == Welcome)
    ensures !e.Reset? ==> s.journal <= r.journal
  {
    match e
    case Navigate(to) => Go(s, to)
    case ReplaceAccessibility(a) => SetAccessibility(codec, s, a)
    case PatchAccessibility(p) => UpdateAccessibility(codec, s, p)
    case ChangeTheme(m) => SetTheme(codec, s, m)
    case ChangeCamera(g) => SetCameraGranted(codec, s, g)
    case ChangePlant(p) => SetCurrentPlant(s, p)
    case AddEntry(d, date) => AddJournalEntry(codec, s, d, date)
    case Reset => ResetApp(codec, s)
    case Connectivity(online) => SetOnline(s, online)
    case Retry(online) => RetryConnection(s, online)
    case Detected(p) => PlantDetected(s, p)
  }

  /** Events processed one after another, never interleaved. Without a reset, entries are only ever appended. */
  function Run(codec: Codec, s: AppState, events: seq<Event>): (r: AppState)
    ensures (forall i :: 0 <= i < |events| ==> !events[i].Reset?) ==> s.journal <= r.journal
    decreases |events|
  {
    if events == [] then s
    else
      var s1 := Step(codec, s, events[0]);
      var r := Run(codec, s1, events[1..]);
      assert forall i :: 0 <= i < |events[1..]| ==> events[1..][i] == events[i + 1];
      r
  }

  /** A state change that touches neither the slices nor the narration inputs keeps the invariant. */
  lemma SessionOnlyValid(codec: Codec, s: AppState, r: AppState)
    requires Valid(codec, s)
    requires SlicesOf(r) == SlicesOf(s) && r.storage == s.storage
    requires r.accessibility.narration == s.accessibility.narration && r.screen == s.screen
    requires r.announcement == s.announcement
    ensures Valid(codec, r)
  {
  }

  /** `go` keeps the invariant. */
  lemma GoValid(codec: Codec, s: AppState, to: Screen)
    requires Valid(codec, s)
    ensures Valid(codec, Go(s, to))
  {
  }

  /** `resetApp` keeps the invariant: the removed keys belong to slices back at their defaults. */
  lemma ResetValid(codec: Codec, s: AppState)
    requires Valid(codec, s)
    ensures Valid(codec, ResetApp(codec, s))
  {
    var cleared := s.(screen := InitialScreen, accessibility := DefaultAccessibility,
                      cameraGranted := false, journal := [], currentPlant := None, theme := Light,
                      storage := s.storage - AllKeys);
    forall k ensures KeyKept(k, s, cleared) {
      match k
      case AccessibilityKey => {}
      case ThemeKey => {}
      case CameraKey => {}
      case JournalKey => {}
    }
    SettleValid(codec, s, cleared);
  }

  /** Every step keeps the invariant. */
  lemma {:induction false} StepValid(codec: Codec, s: AppState, e: Event)
    requires Valid(codec, s)
    ensures Valid(codec, Step(codec, s, e))
  {
    match e
    case Navigate(to) => GoValid(codec, s, to);
    case ReplaceAccessibility(a) => SettleValid(codec, s, s.(accessibility := a));
    case PatchAccessibility(p) => SettleValid(codec, s, s.(accessibility := Merge(s.accessibility, p)));
    case ChangeTheme(m) => SettleValid(codec, s, s.(theme := m));
    case ChangeCamera(g) => SettleValid(codec, s, s.(cameraGranted := g));
    case ChangePlant(p) => SessionOnlyValid(codec, s, SetCurrentPlant(s, p));
    case AddEntry(d, date) => SettleValid(codec, s, s.(journal := s.journal + [Dated(d, date)]));
    case Reset => ResetValid(codec, s);
    case Connectivity(online) => SessionOnlyValid(codec, s, SetOnline(s, online));
    case Retry(online) =>
      SessionOnlyValid(codec, s, SetOnline(s, online));
      GoValid(codec, SetOnline(s, online), Home);
    case Detected(p) =>
      SessionOnlyValid(codec, s, SetCurrentPlant(s, Some(p)));
      GoValid(codec, SetCurrentPlant(s, Some(p)), ScanDetected);
  }

  /** Every sequence of events keeps the invariant. */
  lemma {:induction false} RunValid(codec: Codec, s: AppState, events: seq<Event>)
    requires Valid(codec, s)
    ensures Valid(codec, Run(codec, s, events))
    decreases |events|
  {
    if events != [] {
      StepValid(codec, s, events[0]);
      RunValid(codec, Step(codec, s, events[0]), events[1..]);
    }
  }

  /** The state after start-up satisfies the invariant. */
  lemma StartupValid(codec: Codec, stored: Storage, online: bool)
    ensures Valid(codec, Startup(codec, stored, online))
  {
    var r := Startup(codec, stored, online);
    MirrorsConsistent(codec, r.storage, SlicesOf(r));
  }

  /**
   * Whatever happens after start-up, the announcement follows the narration
   * rule, and a restart hydrates exactly the persisted slices the session
   * ended with.
   */
  lemma {:induction false} SessionRoundTrip(codec: Codec, stored: Storage, online: bool, events: seq<Event>)
    requires Faithful(codec)
    ensures var s := Run(codec, Startup(codec, stored, online), events);
            && s.announcement == Announcement(s.accessibility.narration, s.screen)
            && Hydrate(codec, s.storage) == SlicesOf(s)
  {
    StartupValid(codec, stored, online);
    var s := Run(codec, Startup(codec, stored, online), events);
    RunValid(codec, Startup(codec, stored, online), events);
    HydrateConsistent(codec, s.storage, SlicesOf(s));
  }

  /**
   * After `resetApp`, each key is absent or holds its slice's default, so a
   * later start-up comes back with exactly the defaults.
   */
  lemma {:induction false} ResetThenRestart(codec: Codec, s: AppState, online: bool)
    requires Faithful(codec)
    requires Valid(codec, s)
    ensures var r := Startup(codec, ResetApp(codec, s).storage, online);
            SlicesOf(r) == DefaultSlices && r.screen == Welcome
  {
    StepValid(codec, s, Reset);
    var t := ResetApp(codec, s);
    HydrateConsistent(codec, t.storage, SlicesOf(t));
  }
}
