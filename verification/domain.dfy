/** The typed records the controller keeps in memory. */
module Domain {
  import opened Wrappers

  datatype TextSize = Normal | Large | Xl

  datatype AccessibilitySettings = AccessibilitySettings(
    textSize: TextSize,
    highContrast: bool,
    reduceMotion: bool,
    narration: bool)

  /** `DEFAULT_ACCESSIBILITY`. */
  const DefaultAccessibility: AccessibilitySettings :=
    AccessibilitySettings(Normal, false, false, false)

  datatype ThemeMode = Light | Dark

  /** The two learning routes a journal entry belongs to. */
  datatype Route = CulturalRoute | StemRoute

  /** What a screen hands to `addJournalEntry`: an entry without its date. */
  datatype EntryDraft = EntryDraft(
    id: string,
    plantName: string,
    route: Route,
    notes: string,
    standards: Option<seq<string>>)

  /** A journal entry as stored in the journal. */
  datatype Entry = Entry(
    id: string,
    plantName: string,
    date: string,
    route: Route,
    notes: string,
    standards: Option<seq<string>>)

  /** The plant record the scan flow produces; opaque to the controller. */
  datatype PlantDetails = PlantDetails(
    id: string,
    name: string,
    commonName: Option<string>,
    family: Option<string>,
    origin: Option<string>,
    thumbnail: Option<string>,
    culturalStory: Option<string>,
    stemInfo: Option<string>)

  function TextSizeName(t: TextSize): string {
    match t
    case Normal => "normal"
    case Large => "large"
    case Xl => "xl"
  }

  function ThemeName(m: ThemeMode): string {
    match m
    case Light => "light"
    case Dark => "dark"
  }

  function RouteName(r: Route): string {
    match r
    case CulturalRoute => "cultural"
    case StemRoute => "stem"
  }

  /** `{ ...draft, date }`: the draft's fields plus the supplied creation date. */
  function Dated(d: EntryDraft, date: string): (e: Entry)
    ensures e.id == d.id && e.plantName == d.plantName && e.route == d.route
    ensures e.notes == d.notes && e.standards == d.standards && e.date == date
  {
    Entry(d.id, d.plantName, date, d.route, d.notes, d.standards)
  }

  /** `Partial<AccessibilitySettings>`: `None` is a field the update leaves out. */
  datatype AccessibilityPatch = AccessibilityPatch(
    textSize: Option<TextSize>,
    highContrast: Option<bool>,
    reduceMotion: Option<bool>,
    narration: Option<bool>)

  /** `{ ...prev, ...patch }`. */
  function Merge(prev: AccessibilitySettings, patch: AccessibilityPatch): AccessibilitySettings {
    AccessibilitySettings(
      patch.textSize.GetOr(prev.textSize),
      patch.highContrast.GetOr(prev.highContrast),
      patch.reduceMotion.GetOr(prev.reduceMotion),
      patch.narration.GetOr(prev.narration))
  }
}
