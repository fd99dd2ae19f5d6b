# Roots & Routes: the state controller, in Dafny

This project models the core of the Roots & Routes AR learning app, a React
progressive web app, and proves properties of the model. The core covers:

- **Navigation.** The screen graph `ALLOWED_TRANSITIONS` and the guard `go`,
  which commits a transition only if it is an edge of the graph.
- **Validation.** The schema validators for persisted data, and `sanitizeString`.
- **Controller state.** Its defaults and every mutation: `setAccessibility`,
  `updateAccessibility`, `setTheme`, `setCameraGranted`, `addJournalEntry`,
  `resetApp`, connectivity and retry.
- **Persistence and start-up.** The effects that write each changed slice to
  `localStorage`, start-up hydration, and the narration announcement.
- **CSV export.** `toCsv` and `formatCell`.
- **Route tabs.** The keyboard focus cycling of the tabs component.
- **Journal-entry form.** Its save and export logic.

Modules, one per file:

| file | module | models |
|---|---|---|
| `wrappers.dfy` | `Wrappers` | `Option` |
| `text.dfy` | `Text` | `String.prototype.trim` with ECMAScript white space, `join`, counting |
| `json.dfy` | `Json` | parsed JSON values; `JSON.parse`/`JSON.stringify` as a `Codec` parameter |
| `screens.dfy` | `Screens` | the 19 screens and their headings |
| `navigation.dfy` | `Navigation` | `ALLOWED_TRANSITIONS` and paths through it |
| `domain.dfy` | `Domain` | settings, theme, routes, journal entries, plant records |
| `validation.dfy` | `Validation` | `src/lib/validation.ts` and the validator copies in `App.tsx` |
| `persistence.dfy` | `Persistence` | storage keys, slice encodings, the write effects, hydration |
| `controller.dfy` | `Controller` | the `App` component's state, operations and effects |
| `csv.dfy` | `Csv` | `toCsv`, `formatCell`, header inference |
| `csv_reader.dfy` | `CsvReader`, `CsvTable` | a reference CSV reader and the round trip through it |
| `tabs.dfy` | `Tabs` | `src/ui/Tabs.tsx` |
| `journal_form.dfy` | `JournalForm` | `src/components/journal/JournalEntry.tsx` |
| `call_sites.dfy` | `CallSites` | the `go(...)` calls of the screen components |

## How the model works

- **State.** The controller's state is one immutable `AppState` record, and the
  storage map is one of its fields.
- **Operations and effects.** Each operation is a direct update followed by
  `Settle`. `Settle` models the effects React runs after the render:
  - every persisted slice whose value changed is written again;
  - the announcement is recomputed when the narration flag or the screen
    changed.
- **The invariant.** `Controller.Valid` is kept by every event, and so holds
  for whole sessions. It says two things:
  - the announcement follows the narration rule;
  - storage is consistent: every present key holds its slice's encoding, and
    every absent key belongs to a slice that is at its default.
- **JSON.** `JSON.parse` and `JSON.stringify` are supplied as a `Codec`. The
  only assumption about them is `Json.Faithful`: `stringify` never yields the
  empty string, and parsing it back gives the value again. Only the round-trip
  lemmas require it.

## Behaviour worth knowing

The model follows the code in each of these points.

- **Theme storage.** The theme is stored as the bare word `light` or `dark`,
  not as encoded JSON (`src/App.tsx:278`). Hydration compares that word
  directly, and `isThemeMode` is not used by the app.
- **Reset.** `resetApp` removes the four keys, but the persistence effects
  then write every slice whose value changed. After a reset, a key is
  therefore absent or holds its slice's default. A later start-up still gives
  the defaults (`Controller.ResetThenRestart`).
- **Hydration.** All four reads run in one `try`. If the stored settings do
  not parse, the theme, camera and journal are not read at all. The mount
  effects then overwrite all four keys with the defaults
  (`Controller.StartupAfterSettingsParseFailure`).
- **Change detection.** React compares object and array slices by reference,
  so `setJournal([])` after a reset always re-writes `"[]"`, and every
  `updateAccessibility` call re-writes the settings. The model compares values,
  so it writes in fewer cases. Every extra write stores the current slice's
  encoding. The invariant lemmas (`Controller.StepValid`, `Controller.RunValid`,
  `Controller.SessionRoundTrip`) therefore hold under both readings, and so do
  the frame clauses, which only concern other keys. Two statements hold only
  under value comparison; they are listed under "Left out".

## Model

| member | source | states |
|---|---|---|
| `Screens.AllScreensComplete` | src/App.tsx:70-90 | there are exactly 19 screens, all distinct, each with a heading |
| `Screens.HeadingInjective` | src/App.tsx:70-90 | no two screens share a heading, so an announcement names its screen |
| `Navigation.TargetsAreScreens` | src/lib/navigation.ts:6-42 | every target of the table is a screen |
| `Navigation.AllowedTransitions` | src/lib/navigation.ts:6-42 | no screen lists itself as a target, and every screen other than home lists home |
| `Navigation.TargetsDistinct` | src/lib/navigation.ts:6-42 | no screen lists the same target twice |
| `Navigation.NoSelfLoops` | src/lib/navigation.ts:6-42 | no screen lists itself as a target |
| `Navigation.EveryScreenLeadsHome` | src/lib/navigation.ts:6-42 | every screen other than home has an edge to home |
| `Navigation.HomeTargets` | src/lib/navigation.ts:11-27 | home reaches every screen except itself and the three onboarding screens after welcome |
| `Navigation.OfflineOnlyFromHome` | src/lib/navigation.ts:6-42 | home is the only screen with an edge to offline |
| `Navigation.PathTail` | src/lib/navigation.ts:6-42 | a path of edges stays a path when its first screen is dropped |
| `Navigation.FromHome` | src/lib/navigation.ts:6-42 | every screen is reachable from home along edges |
| `Navigation.PathBetween` | src/lib/navigation.ts:6-42 | any two screens are joined by a path of at most six screens |
| `Navigation.StronglyConnected` | src/lib/navigation.ts:6-42 | the graph is strongly connected |
| `Text.TrimStartIndex` | src/lib/validation.ts:50 | the leading white space that `trim` removes, and the first non-space character after it |
| `Text.TrimEndIndex` | src/lib/validation.ts:50 | the trailing white space that `trim` removes, and the last non-space character before it |
| `Text.Trim` | src/lib/validation.ts:50 | the trimmed text is a contiguous part of the input with non-space ends; it is empty exactly when the input is all white space |
| `Text.TrimIdempotent` | src/lib/validation.ts:50 | trimming twice is trimming once |
| `Text.CountDistinct` | src/ui/Tabs.tsx:69-83 | in a list without repetitions, an element occurs once or not at all |
| `Validation.SliceEnd` | src/lib/validation.ts:50 | `slice(0, n)` keeps at most n characters, and all of them when n is not smaller than the length |
| `Validation.SanitizeString` | src/lib/validation.ts:46-51 | a non-string yields ""; a string yields its first `maxLength` characters (a negative bound counting from the end, as `slice` does), trimmed; so the result never exceeds a non-negative maximum and has no white space at either end |
| `Validation.SanitizeIdempotent` | src/lib/validation.ts:46-51 | for a non-negative bound, sanitising a sanitised string changes nothing |
| `Validation.SanitizeDefault` | src/lib/validation.ts:46 | with the default bound of 10000, as the simulation screen calls it, a string of at most 10000 characters is only trimmed and a longer one is cut to its first 10000 characters before trimming |
| `Validation.AccessibilityValidatorsAgree` | src/App.tsx:92-106 | the settings validator in `App.tsx` accepts exactly what the library one accepts |
| `Validation.EntryValidatorsAgree` | src/App.tsx:108-122 | the two journal-entry validators agree on every value |
| `Validation.JournalValidatorsAgree` | src/App.tsx:124-125 | the two journal-array validators agree on every value |
| `Validation.EmptyJournalValid` | src/lib/validation.ts:38-40 | the empty array is a valid journal |
| `Validation.JournalAppend` | src/lib/validation.ts:38-40 | an array with one more element is a valid journal exactly when the original array is valid and the new element is a valid entry |
| `Validation.NonObjectsRejected` | src/lib/validation.ts:7-36 | null, booleans, numbers, strings and arrays are neither settings nor entries |
| `Persistence.TextSizeFromJson` | src/lib/validation.ts:3-5 | an accepted text size is one of the three names, read back exactly |
| `Persistence.RouteFromJson` | src/lib/validation.ts:33 | an accepted route is `cultural` or `stem`, read back exactly |
| `Persistence.AccessibilityFromJson` | src/lib/validation.ts:7-20 | settings read from an accepted object carry its four property values |
| `Persistence.AccessibilityToJson` | src/App.tsx:260-270 | the stored settings object passes the validator and reads back as the same settings |
| `Persistence.StandardsFromJson` | src/App.tsx:192-209 | `standards` is kept exactly when it is an array of strings, element by element |
| `Persistence.StandardsToJson` | src/App.tsx:311-321 | a standards list reads back unchanged |
| `Persistence.EntryFromJson` | src/lib/validation.ts:22-36 | an entry read from an accepted object carries its id, plant name, date, route, notes and standards |
| `Persistence.EntryToJson` | src/App.tsx:311-321 | a stored entry passes the validator and reads back as the same entry |
| `Persistence.JournalFromJson` | src/lib/validation.ts:38-40 | a journal read from an accepted array has one entry per element, in order |
| `Persistence.JournalToJson` | src/App.tsx:311-321 | a stored journal passes the array validator and reads back unchanged |
| `Persistence.TextSizeNames` | src/lib/validation.ts:3-5 | `isValidTextSize` accepts a value exactly when it is the name of one of the three text sizes |
| `Persistence.ThemeModeNames` | src/lib/validation.ts:42-44 | `isThemeMode` accepts a value exactly when it is the name of one of the two modes |
| `Persistence.ThemeModeStored` | src/lib/validation.ts:42-44 | a stored theme word is taken back by hydration exactly when `isThemeMode` accepts it |
| `Persistence.AccessibilityShape` | src/lib/validation.ts:7-20 | `isAccessibilitySettings` accepts a value exactly when it is an object carrying the four fields of some settings, with their types; extra properties are allowed |
| `Persistence.EntryShape` | src/lib/validation.ts:22-36 | `isJournalEntry` accepts a value exactly when it is an object carrying the five required fields of some entry; `standards` and extra properties are allowed |
| `Persistence.JournalShape` | src/lib/validation.ts:38-40 | `isJournalEntryArray` accepts a value exactly when it is an array each of whose elements has the shape of an entry |
| `Persistence.Encode` | src/App.tsx:260-321 | each slice's stored text reads back as the slice: the theme and camera words through their hydration checks, and the settings and journal JSON through a faithful `JSON.parse` |
| `Persistence.WriteChanged` | src/App.tsx:260-321 | after a render, each changed slice's key holds its new encoding and every other key is untouched |
| `Persistence.EveryKey` | src/App.tsx:63-68 | a fact about each of the four storage keys holds for every key |
| `Persistence.WriteAll` | src/App.tsx:260-321 | the mount-time run of the four effects leaves every key holding its slice's encoding |
| `Persistence.MirrorsConsistent` | src/App.tsx:260-321 | storage holding every slice is consistent storage |
| `Persistence.StoredTheme` | src/App.tsx:238-241 | a stored theme is used exactly when the text is `light` or `dark` |
| `Persistence.StoredCamera` | src/App.tsx:243-246 | a stored camera flag is used exactly when the text is `true` or `false`, and it is granted exactly for `true` |
| `Persistence.Hydrate` | src/App.tsx:224-258 | a parse failure on the settings leaves every slice at its default; a parse failure on the journal leaves the journal empty |
| `Persistence.HydrateConsistent` | src/App.tsx:224-258 | hydrating consistent storage gives back exactly the slices it was written from |
| `Persistence.AccessibilityReadsBack` | src/App.tsx:229-236 | from consistent storage the settings read succeeds and yields the stored settings, or the default when the key is absent |
| `Persistence.JournalReadsBack` | src/App.tsx:248-254 | from consistent storage the journal read succeeds and yields the stored journal, or the empty one when the key is absent |
| `Persistence.ThemeAndCameraReadBack` | src/App.tsx:238-246 | from consistent storage the theme and camera reads give back the stored values, or the defaults when absent |
| `Persistence.InvalidAccessibilityIgnored` | src/App.tsx:229-246 | stored settings that parse but fail validation are ignored, and theme and camera are still read |
| `Persistence.HydrateEmpty` | src/App.tsx:159-167 | empty storage hydrates to the defaults |
| `Persistence.HydrateTakesOnlyValid` | src/App.tsx:224-258 | once the settings read has not thrown, theme and camera come from valid stored words and default otherwise, and the settings and journal come only from decoded values their validators accept, each defaulting otherwise |
| `Persistence.MalformedJournalIgnored` | src/App.tsx:248-254 | a stored journal `[{"id":1}]` fails the validator and hydrates to the empty journal |
| `Controller.AnnouncementNamesScreen` | src/App.tsx:335-344 | with narration on, two screens get the same announcement exactly when they are the same screen, so the live region always names the screen shown |
| `Controller.GuardedTarget` | src/App.tsx:363-377 | the screen after `go` is the target exactly when the target is the current screen or an edge from it, and the current screen otherwise |
| `Controller.Settle` | src/App.tsx:260-344 | the effects after a render change only storage and the announcement: each changed slice's key then holds its encoding, every other key is as before, and the announcement is recomputed exactly when the screen or the narration flag changed |
| `Controller.Go` | src/App.tsx:363-377 | a request for the current screen or a non-edge leaves the state unchanged; an edge changes the screen and the announcement and nothing else |
| `Controller.GoSettles` | src/App.tsx:335-377 | `go` is the screen update followed by the effects |
| `Controller.WalkFollowsPath` | src/App.tsx:363-377 | requests along a path of edges end on the path's last screen |
| `Controller.EveryScreenReachable` | src/App.tsx:363-377 | from any state, some sequence of requests reaches any chosen screen |
| `Controller.OfflineBannerGuard` | src/App.tsx:536 | the offline banner's request moves to offline only from home and is refused everywhere else |
| `Controller.WelcomeToCulturalRefused` | src/App.tsx:363-377 | a request outside the table, such as welcome to cultural, leaves the state unchanged |
| `Controller.OnboardingScenario` | src/lib/navigation.ts:7 | from welcome, permissions and then home are committed, and cultural is refused |
| `Controller.SetAccessibility` | src/App.tsx:169-171 | the settings are replaced and new settings are written as JSON; no other slice, key, the plant or the offline flag changes; the announcement is recomputed only when narration changed |
| `Controller.UpdateAccessibility` | src/App.tsx:173-178 | fields present in the patch are overwritten and the others keep their value; other slices, the plant and the offline flag are unchanged; changed settings are written and every other storage key keeps its text; the announcement is recomputed exactly when the narration flag changes |
| `Controller.EmptyPatchIsIdentity` | src/App.tsx:173-178 | an empty patch changes nothing at all |
| `Controller.SetTheme` | src/App.tsx:180-182 | the theme is replaced and a new theme is written as its bare name; no other slice, key, the plant, the offline flag or the announcement changes; the same theme writes nothing |
| `Controller.SetCameraGranted` | src/App.tsx:184-186 | the flag is replaced and a new flag is written as `true` or `false`; no other slice, key, the plant, the offline flag or the announcement changes; the same flag writes nothing |
| `Controller.AddJournalEntry` | src/App.tsx:192-209 | the journal grows by the dated draft at its end, earlier entries untouched, and the new journal is written; no other slice, key, the plant, the offline flag or the announcement changes |
| `Controller.JournalKeepsInsertionOrder` | src/App.tsx:192-209 | two entries added one after the other appear in that order after the old journal |
| `Controller.ResetApp` | src/App.tsx:211-222 | every slice is at its default and the screen is welcome; any key still present holds a default's encoding |
| `Controller.RetryConnection` | src/App.tsx:379-387 | the offline flag follows connectivity; when online the app goes home if the guard allows it and otherwise stays; the announcement changes only with the screen; slices, storage and the plant are untouched |
| `Controller.PlantDetected` | src/components/scan/ScanDetecting.tsx:15-33 | the detected plant becomes the current plant, and the screen moves to the identified screen exactly when the guard allows it; the announcement changes only with the screen; slices, storage and the offline flag are untouched |
| `Controller.Startup` | src/App.tsx:159-258 | the state after mounting holds the hydrated slices on the welcome screen, and storage holds each slice's encoding |
| `Controller.EncodeSameSlice` | src/App.tsx:260-321 | equal slices have equal encodings |
| `Controller.StartupAfterSettingsParseFailure` | src/App.tsx:224-258 | if stored settings fail to parse, start-up comes back with all four slices at their defaults and stores those defaults |
| `Controller.SettleValid` | src/App.tsx:260-344 | the effects restore the invariant after any slice update |
| `Controller.SessionOnlyValid` | src/App.tsx:164-166 | changing session-only state (the plant, the offline flag) keeps the invariant |
| `Controller.GoValid` | src/App.tsx:363-377 | `go` keeps the invariant |
| `Controller.ResetValid` | src/App.tsx:211-222 | a reset keeps the invariant: the keys it removes belong to slices back at their defaults |
| `Controller.Step` | src/App.tsx:169-387 | one event moves the screen only along an edge of the table, except a reset, which goes to welcome; every event but a reset keeps the old journal as a prefix |
| `Controller.Run` | src/App.tsx:169-387 | a sequence of events without a reset only ever appends to the journal |
| `Controller.StepValid` | src/App.tsx:169-387 | every controller event keeps the invariant |
| `Controller.RunValid` | src/App.tsx:169-387 | any sequence of events keeps the invariant |
| `Controller.StartupValid` | src/App.tsx:159-258 | the state after start-up satisfies the invariant |
| `Controller.SessionRoundTrip` | src/App.tsx:224-321 | after start-up and any events, the announcement follows the narration rule and re-hydrating storage gives exactly the current slices |
| `Controller.ResetThenRestart` | src/App.tsx:211-258 | after a reset, a fresh start-up comes back with the defaults on the welcome screen |
| `Csv.Keys` | src/lib/csv.ts:13 | the keys of a row, in order |
| `Csv.Lookup` | src/lib/csv.ts:20 | a cell is missing exactly when its key is not among the row's keys |
| `Csv.EscapeQuotes` | src/lib/csv.ts:32 | doubling quotes never shortens the text and changes nothing when it has no quotes |
| `Csv.FormatCell` | src/lib/csv.ts:25-35 | null and undefined render empty, and a text without quote, comma or line feed renders as itself |
| `Csv.UnescapeEscape` | src/lib/csv.ts:32 | undoubling the quotes recovers the text |
| `Csv.QuotedCellRoundTrip` | src/lib/csv.ts:31-33 | a quoted cell is wrapped in quotes, and its inside unescapes to the text |
| `Csv.Dedup` | src/lib/csv.ts:11-18 | the header list has the same elements as the keys and no repetitions |
| `Csv.FirstIndex` | src/lib/csv.ts:14 | the position where a key first appears |
| `Csv.FirstIndexExtend` | src/lib/csv.ts:14 | appending keys does not move where an existing key first appears |
| `Csv.DedupOrder` | src/lib/csv.ts:11-18 | headers appear in the order their keys first appear across the rows |
| `Csv.HeadersSpec` | src/lib/csv.ts:11-18 | the headers are exactly the keys of all rows, each once, in order of first appearance |
| `Csv.AddRowKeys` | src/lib/csv.ts:13-17 | the inner loop adds the unseen keys of one row, in order |
| `Csv.DedupSnoc` | src/lib/csv.ts:13-17 | one more key is appended to the header list exactly when it is not there yet |
| `Csv.InferHeaders` | src/lib/csv.ts:11-18 | the two nested loops compute the header list: distinct, and with the same elements as the keys |
| `Csv.FormatRow` | src/lib/csv.ts:20 | a data line has one cell per header |
| `Csv.DataLines` | src/lib/csv.ts:20 | there is one data line per row |
| `Csv.ToCsv` | src/lib/csv.ts:6-23 | no rows give the empty text |
| `Csv.FormatHeaders` | src/lib/csv.ts:22 | with the correction, one formatted cell per header |
| `Csv.ToCsvQuotedHeaders` | src/lib/csv.ts:6-23 | the corrected serialiser: no rows give the empty text |
| `Csv.FormatHeadersPlain` | src/lib/csv.ts:22 | headers that need no quoting are unchanged by formatting |
| `Csv.PlainHeadersAgree` | src/lib/csv.ts:22 | when no key needs quoting, the serialiser as written and the corrected one produce the same text |
| `Csv.DedupDistinct` | src/lib/csv.ts:11-18 | keys without repetitions are their own header list |
| `Csv.SingleRowHeaders` | src/lib/csv.ts:11-18 | the headers of one row with distinct keys are its keys in order |
| `Csv.LookupAt` | src/lib/csv.ts:20 | with distinct keys, looking up a row's i-th key finds its i-th value |
| `CsvReader.ReadBareRoundTrip` | src/lib/csv.ts:34 | an unquoted cell reads back as itself up to the next separator |
| `CsvReader.ReadQuotedDoubled` | src/lib/csv.ts:32 | a doubled quote inside a quoted field reads as one quote |
| `CsvReader.ReadQuotedPlain` | src/lib/csv.ts:32 | any other character inside a quoted field reads as itself |
| `CsvReader.ReadQuotedRoundTrip` | src/lib/csv.ts:32 | the escaped text and closing quote read back as the text |
| `CsvReader.ReadFieldRoundTrip` | src/lib/csv.ts:25-35 | every formatted cell reads back as its text, null and undefined as empty |
| `CsvReader.ReadRecordRoundTrip` | src/lib/csv.ts:20 | a line of formatted cells joined by commas reads back as the cells' texts |
| `CsvReader.ReadRecordsRoundTrip` | src/lib/csv.ts:22 | lines joined by line feeds read back line by line |
| `CsvTable.HeaderCellsFormat` | src/lib/csv.ts:22 | the corrected header line is the headers formatted as cells, which read back as the headers |
| `CsvTable.RowCellsFormat` | src/lib/csv.ts:20 | a data line is the row's cells in header order, and each reads back as the cell under its header |
| `CsvTable.TableCellsFormat` | src/lib/csv.ts:20 | the data lines are the rows' cells in header order |
| `CsvTable.TextLinesAt` | src/lib/csv.ts:22 | the i-th record read back is the i-th line's texts |
| `CsvTable.TableCellsRows` | src/lib/csv.ts:20 | the i-th data line belongs to the i-th row |
| `CsvTable.CsvRoundTrip` | src/lib/csv.ts:6-35 | with quoted headers, reading the output back gives the header list, then for every row the text of each header's cell (empty where the key is missing or null) |
| `CsvTable.SingleRowReadsBack` | src/lib/csv.ts:6-35 | a one-row table reads back as its header line and one record of the row's cells in header order |
| `CsvTable.UnquotedHeaderSplits` | src/lib/csv.ts:22 | as written, the key `a,b` gives the text `a,b` LF `x`, whose header line reads back as two headers; the corrected version reads back correctly |
| `CsvTable.CommaKeyHeaders` | src/lib/csv.ts:11-18 | the one-row table with key `a,b` has that key as its only header |
| `CsvTable.CommaKeyText` | src/lib/csv.ts:20-22 | as written, that table serialises to `a,b` LF `x` |
| `CsvTable.CommaKeyRead` | src/lib/csv.ts:22 | the text `a,b` LF `x` reads back with a first record of two fields |
| `Tabs.FindIndex` | src/ui/Tabs.tsx:41 | the first position holding the focused id, or -1 exactly when it is absent |
| `Tabs.NextIndex` | src/ui/Tabs.tsx:46-47 | the next index is in range; ArrowRight steps forward and wraps from the last tab to the first; ArrowLeft steps back and wraps from the first to the last |
| `Tabs.NextIndexIsModulo` | src/ui/Tabs.tsx:46-47 | the wrap-around step is exactly `(currentIndex + direction + length) % length`, the dividend never being negative |
| `Tabs.KeyDownAt` | src/ui/Tabs.tsx:41-49 | with distinct ids, an arrow on the tab at position a focuses the tab at the next index from a |
| `Tabs.KeyDown` | src/ui/Tabs.tsx:34-52 | other keys, or a focus not among the tabs, leave the focus unchanged; an arrow keeps it on a tab |
| `Tabs.Mount` | src/ui/Tabs.tsx:18 | the focus starts on the active tab |
| `Tabs.SetActive` | src/ui/Tabs.tsx:20-22 | a new active id also becomes the focus; the same id changes nothing |
| `Tabs.Press` | src/ui/Tabs.tsx:34-52 | a key press changes only the focus |
| `Tabs.TabIndicesCount` | src/ui/Tabs.tsx:83 | a tab has tabIndex 0 exactly when it is the focused one |
| `Tabs.HiddenCount` | src/ui/Tabs.tsx:112-121 | a panel is shown exactly when its id is the active one |
| `Tabs.ExactlyOneTabStop` | src/ui/Tabs.tsx:83 | with distinct ids and the focus on a tab, exactly one tab has tabIndex 0 |
| `Tabs.ExactlyOnePanelShown` | src/ui/Tabs.tsx:112-121 | with distinct ids and the active id among them, exactly one panel is shown |
| `Tabs.FindIndexDistinct` | src/ui/Tabs.tsx:41 | with distinct ids, a tab's id is found at its own position |
| `Tabs.WrapAround` | src/ui/Tabs.tsx:46-47 | ArrowRight on the last tab focuses the first, and ArrowLeft on the first focuses the last |
| `Tabs.RightThenLeft` | src/ui/Tabs.tsx:46-47 | ArrowRight then ArrowLeft, or the reverse, returns the focus to where it was |
| `Tabs.PressIndex` | src/ui/Tabs.tsx:46-47 | repeated steps of the same arrow stay within the tab positions |
| `Tabs.PressesAt` | src/ui/Tabs.tsx:41-49 | with distinct ids, repeated presses follow the repeated index steps |
| `Tabs.PressIndexRight` | src/ui/Tabs.tsx:46-47 | up to a full turn, m forward steps from k reach k + m, wrapping once past the end |
| `Tabs.PressIndexLeft` | src/ui/Tabs.tsx:46-47 | up to a full turn, m backward steps from k reach k - m, wrapping once past the start |
| `Tabs.PressesRight` | src/ui/Tabs.tsx:46-49 | m ArrowRight presses (m up to the number of tabs) move the focus m tabs on, wrapping past the end |
| `Tabs.PressesLeft` | src/ui/Tabs.tsx:46-49 | m ArrowLeft presses (m up to the number of tabs) move the focus m tabs back, wrapping past the start |
| `Tabs.FullCycle` | src/ui/Tabs.tsx:34-52 | pressing one key once per tab brings the focus back to where it started |
| `Tabs.PressesFixed` | src/ui/Tabs.tsx:36-44 | presses of other keys, or with the focus off the tabs, never move the focus |
| `Tabs.FocusStaysOnATab` | src/ui/Tabs.tsx:18-83 | through any key presses and parent selections, the focus stays on a tab, exactly one tab has tabIndex 0, and exactly one panel is shown |
| `JournalForm.InitialForm` | src/components/journal/JournalEntry.tsx:61-64 | the plant name starts as the plant's common name, else its name, else empty; the route starts as cultural; notes and standards start empty |
| `JournalForm.CanSave` | src/components/journal/JournalEntry.tsx:66 | saving is allowed exactly when neither the notes nor the plant name is all white space |
| `JournalForm.RemoveAll` | src/components/journal/JournalEntry.tsx:83 | the filter removes every copy of the standard and keeps every other one |
| `JournalForm.ToggleStandard` | src/components/journal/JournalEntry.tsx:81-85 | an unchecked standard is appended; a checked one is removed and nothing else changes membership |
| `JournalForm.RemoveAllAt` | src/components/journal/JournalEntry.tsx:83 | in a list without repetitions, removing a standard takes out exactly its position and keeps the order |
| `JournalForm.RemoveAllAbsent` | src/components/journal/JournalEntry.tsx:83 | filtering out an absent standard changes nothing |
| `JournalForm.ToggleKeepsDistinct` | src/components/journal/JournalEntry.tsx:81-85 | toggling never introduces a repetition |
| `JournalForm.RemoveAllAppended` | src/components/journal/JournalEntry.tsx:83 | removing a standard just appended to a list that lacked it restores the list |
| `JournalForm.ToggleTwice` | src/components/journal/JournalEntry.tsx:81-85 | checking and then unchecking a standard restores the list |
| `JournalForm.ClicksParity` | src/components/journal/JournalEntry.tsx:81-85 | after any clicks the list has no repetitions, and a standard's membership flips once per click on it |
| `JournalForm.ClicksFromEmpty` | src/components/journal/JournalEntry.tsx:64-85 | starting from none, a standard is checked exactly when it was clicked an odd number of times |
| `JournalForm.Draft` | src/components/journal/JournalEntry.tsx:92-98 | the saved draft has the trimmed plant name and notes, the route, and the standards, omitted when none are checked |
| `JournalForm.SaveTargetAllowed` | src/components/journal/JournalEntry.tsx:99 | the save's navigation is an edge of the table |
| `JournalForm.Save` | src/components/journal/JournalEntry.tsx:87-100 | a form that cannot be saved changes nothing; otherwise the dated draft is appended and the journal-entry screen moves to the list |
| `JournalForm.SaveValid` | src/components/journal/JournalEntry.tsx:87-100 | saving keeps the controller's invariant |
| `JournalForm.CsvExport` | src/components/journal/JournalEntry.tsx:68-108 | an export happens exactly when the form can be saved, and its content is the one-row CSV |
| `JournalForm.ExportFileName` | src/components/journal/JournalEntry.tsx:107 | the `journal-entry` fallback name is never used: the file is named after the plant name |
| `JournalForm.ExportRoundTrip` | src/components/journal/JournalEntry.tsx:68-79 | the export reads back as the four column names and the form's plant name, route, notes and joined standards, whatever characters they hold |
| `JournalForm.ExportLines` | src/components/journal/JournalEntry.tsx:70-78 | the serialised export row reads back as the column names and the four form values |
| `JournalForm.ExportText` | src/components/journal/JournalEntry.tsx:68-79 | since the four column names need no quoting, the export text as written equals the serialiser with quoted headers |
| `JournalForm.ExportHeadersOfRow` | src/components/journal/JournalEntry.tsx:70-77 | the export's headers are the four column names, none of which needs quoting |
| `JournalForm.ExportRow` | src/components/journal/JournalEntry.tsx:70-77 | the export row's keys are the four column names in order, and under each name it holds the plant name, route, notes and joined standards |
| `JournalForm.ReadsBackAs` | src/lib/csv.ts:6-35 | a one-row table reads back as its headers and the texts of its cells under them |
| `JournalForm.ExportHeadersPlain` | src/components/journal/JournalEntry.tsx:70-77 | the four column names are distinct and none needs quoting |
| `CallSites.NavSites` | src/components/navigation/BottomNav.tsx:37 | a navigation bar issues one request per item |
| `CallSites.TabSites` | src/components/routes/CulturalTab.tsx:46-51 | a tab click requests the tab's screen |
| `CallSites.OnboardingAccepted` | src/components/onboarding/Welcome.tsx:99 | every onboarding call is an edge of the table |
| `CallSites.ScanAccepted` | src/components/scan/ScanDetected.tsx:20-51 | every call of the scan flow is an edge of the table |
| `CallSites.HubAccepted` | src/components/Home.tsx:33-67 | every call on home and in the journal screens is an edge of the table |
| `CallSites.RoutesAccepted` | src/components/routes/STEMTab.tsx:115-125 | every call in the plant views, the simulation and the retry on the offline screen is an edge of the table |
| `CallSites.NavAndTabsAccepted` | src/components/Settings.tsx:36-39 | every navigation-bar item and route tab is an edge or a no-op from the screen that shows it |
| `CallSites.EverySiteAccepted` | src/components/Home.tsx:33-117 | no listed call is refused by the guard |
| `CallSites.EverySiteCommits` | src/components/journal/JournalList.tsx:42-106 | fired from its own screen, every listed call ends on the screen it asks for |
| `CallSites.PlaceholderCommits` | src/App.tsx:127-150 | each button of the placeholder screen commits its transition |

## Left out

- Rendering and the DOM are not modelled. This covers markup, styles, the
  `theme.ts` presentation effects (text scale, contrast, motion, dark mode),
  moving focus to the screen heading, and the `focus()` call in the tabs. The
  model records only which tab holds the focus.
- The `typeof window === 'undefined'` guards are not modelled; the model
  always runs in a browser. `console.error` logging is also left out.
- A `localStorage.setItem` that throws (for example when the quota is full)
  is not modelled; every write succeeds.
- The clock and the id generators are not modelled. `new Date().toISOString()`
  becomes a `date` parameter, and `generateEntryId`/`generateId` become an `id`
  parameter, because both are time- and randomness-dependent.
- `navigator.onLine` is an `online` parameter.
- `downloadCsv` (Blob, object URL and a click on a link) is I/O. Only the file
  name and content it receives are modelled.
- `TimeShiftSimulation` computes with floating point. Only its two `go` calls
  are modelled.
- The `ErrorCamera`, `Offline`, `NoPlant`, `EducatorDashboard` and
  `MarketingPoster` components are not part of this model, so their `go`
  calls are not listed.
- Values in state are typed. Extra properties on stored objects, and a
  `standards` field that is present but not an array of strings, are kept by
  the source and dropped by the model when it reads them.
- An explicit `undefined` property in an `updateAccessibility` patch is
  treated as absent. The model does not copy the `undefined` into the
  settings.
- JSON numbers are integers. No validator accepts a number, so nothing in the
  model depends on this.
- `Object.keys` lists integer-like keys first. The model takes a row's keys in
  the order given.
- CSV cells that are numbers or booleans are given as their `String(...)` text.
- Strings are sequences of Unicode characters. JavaScript counts UTF-16 code
  units, so `slice(0, maxLength)` could split a surrogate pair that the model
  keeps whole.
- `Persistence.Hydrate`: its contract states only the two failure cases. What
  it returns otherwise is stated by `Persistence.HydrateTakesOnlyValid`, and
  the round trip for consistent storage by `Persistence.HydrateConsistent`.
- `Controller.SetAccessibility`: its clause that the same settings write
  nothing holds only under value comparison. React compares by reference, so
  setting an equal but new settings object writes the key again.
- `Controller.EmptyPatchIsIdentity`: holds only under value comparison.
  `updateAccessibility` always builds a new object, so the source writes the
  settings key even for an empty patch. After a reset, for example, the call
  `updateAccessibility({ textSize: 'normal' })` writes a key that the model
  leaves absent.
- `Csv.Lookup`: finds only the row's own keys. In the source, `row[header]`
  also reaches properties inherited from `Object.prototype`: rows
  `[{ a: "1" }, { constructor: "x" }]` put the text of the `Object` function
  in the first row's `constructor` cell, where the model puts an empty cell.
  The model treats rows as plain maps.
- `Csv.ToCsv`: its contract states only the empty case. What its output
  means is stated for the corrected serialiser (`CsvTable.CsvRoundTrip`).
  `Csv.PlainHeadersAgree` ties the two together.

## Findings

| source | as written | input that shows it | evidently intended | confidence | as-written member | corrected member |
|---|---|---|---|---|---|---|
| src/lib/csv.ts:22 | the header line is `headers.join(',')` and the keys are not passed through `formatCell` | one row `{ "a,b": "x" }` gives `a,b` LF `x`, whose header line reads back as two columns `a` and `b` | header cells quoted like data cells, so the output reads back as the headers and the rows | medium (no key in the app contains a comma, quote or line feed); not executed | `CsvTable.UnquotedHeaderSplits` | `CsvTable.CsvRoundTrip` |
