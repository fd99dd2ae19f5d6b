/** The closed set of screens of the application and the heading of each. */
module Screens {

  datatype Screen =
    | Welcome | Permissions | Accessibility | Privacy | Home
    | ScanIdle | ScanDetecting | ScanDetected | Cultural | Stem
    | Simulation | JournalList | JournalEntry | Settings | Educator
    | ErrorCamera | Offline | NoPlant | Poster

  /** Every screen, once, in declaration order. */
  const AllScreens: seq<Screen> :=
    [ Welcome, Permissions, Accessibility, Privacy, Home,
      ScanIdle, ScanDetecting, ScanDetected, Cultural, Stem,
      Simulation, JournalList, JournalEntry, Settings, Educator,
      ErrorCamera, Offline, NoPlant, Poster ]

  /** The screen the application starts on and `resetApp` returns to. */
  const InitialScreen: Screen := Welcome

  /** `SCREEN_HEADINGS`: the human-readable label of each screen. */
  function Heading(s: Screen): string {
    match s
    case Welcome => "Welcome"
    case Permissions => "Camera Permissions"
    case Accessibility => "Accessibility Setup"
    case Privacy => "Privacy Overview"
    case Home => "Home"
    case ScanIdle => "Ready to Scan"
    case ScanDetecting => "Scanning Plant"
    case ScanDetected => "Plant Identified"
    case Cultural => "Cultural Route"
    case Stem => "STEM Route"
    case Simulation => "Climate Simulation"
    case JournalList => "Journal Entries"
    case JournalEntry => "Journal Entry"
    case Settings => "Settings"
    case Educator => "Educator Dashboard"
    case ErrorCamera => "Camera Access Required"
    case Offline => "Offline Mode"
    case NoPlant => "No Plant Detected"
    case Poster => "Roots & Routes Poster"
  }

  /** The screen list has nineteen distinct entries and names every screen. */
  lemma AllScreensComplete()
    ensures |AllScreens| == 19
    ensures forall s: Screen :: s in AllScreens
    ensures forall i, j :: 0 <= i < j < |AllScreens| ==> AllScreens[i] != AllScreens[j]
  {
    forall s: Screen ensures s in AllScreens {
      match s
      case Welcome | Permissions | Accessibility | Privacy | Home => {}
      case ScanIdle | ScanDetecting | ScanDetected | Cultural | Stem => {}
      case Simulation | JournalList | JournalEntry | Settings | Educator => {}
      case ErrorCamera | Offline | NoPlant | Poster => {}
    }
  }

  /** No two screens share a heading, so an announcement names its screen. */
  lemma HeadingInjective(a: Screen, b: Screen)
    requires Heading(a) == Heading(b)
    ensures a == b
  {
  }
}
