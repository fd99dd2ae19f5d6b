/**
 * The navigation graph: for every screen, the screens a transition may go to
 * directly. The guard in the controller consults nothing else.
 */
module Navigation {
  import opened Screens

  /** `ALLOWED_TRANSITIONS`, in the order the table lists the targets. */
  function AllowedTransitions(s: Screen): (r: seq<Screen>)
    ensures s !in r
    ensures s != Home ==> Home in r
  {
    match s
    case Welcome => [Permissions, Home]
    case Permissions => [Accessibility, Welcome, Home, ErrorCamera]
    case Accessibility => [Privacy, Home]
    case Privacy => [Home]
    case Home =>
      [ ScanIdle, ScanDetecting, ScanDetected, Cultural, Stem, Simulation, JournalList,
        JournalEntry, Settings, Educator, ErrorCamera, Offline, NoPlant, Poster, Welcome ]
    case ScanIdle => [ScanDetecting, Home, ErrorCamera, NoPlant]
    case ScanDetecting => [ScanDetected, ScanIdle, Home]
    case ScanDetected => [Cultural, Stem, ScanIdle, Home]
    case Cultural => [Stem, Simulation, Home, JournalEntry, JournalList, ScanIdle]
    case Stem => [Cultural, Simulation, Home, JournalEntry, JournalList, ScanIdle]
    case Simulation => [Home, JournalEntry, JournalList, Stem, Cultural]
    case JournalList => [JournalEntry, Home, ScanIdle, Settings]
    case JournalEntry => [JournalList, Home]
    case Settings => [Home, Welcome, ScanIdle, JournalList]
    case Educator => [Home]
    case ErrorCamera => [Settings, Home, Permissions]
    case Offline => [Home, JournalList, JournalEntry]
    case NoPlant => [ScanIdle, Home, Poster]
    case Poster => [Home, ScanIdle]
  }

  /** A direct transition from `a` to `b` is in the table. */
  predicate IsEdge(a: Screen, b: Screen) {
    b in AllowedTransitions(a)
  }

  /** No screen lists a target twice. */
  lemma TargetsDistinct(s: Screen)
    ensures forall i, j :: 0 <= i < j < |AllowedTransitions(s)| ==> AllowedTransitions(s)[i] != AllowedTransitions(s)[j]
  {
  }

  /** Closure: every listed target is one of the nineteen screens. */
  lemma TargetsAreScreens(s: Screen, t: Screen)
    requires IsEdge(s, t)
    ensures t in AllScreens
  {
    AllScreensComplete();
  }

  /** No screen lists itself as a target. */
  lemma NoSelfLoops(s: Screen)
    ensures !IsEdge(s, s)
  {
  }

  /** Every screen other than home has a direct edge back to home. */
  lemma EveryScreenLeadsHome(s: Screen)
    requires s != Home
    ensures IsEdge(s, Home)
  {
  }

  /** Home leads directly to every screen except itself and the three onboarding steps after welcome. */
  lemma HomeTargets(t: Screen)
    ensures IsEdge(Home, t) <==> t !in {Home, Permissions, Accessibility, Privacy}
  {
  }

  /** `offline` is a target of home and of no other screen. */
  lemma OfflineOnlyFromHome(s: Screen)
    ensures IsEdge(s, Offline) <==> s == Home
  {
  }

  /** Consecutive screens of `p` are joined by edges. */
  predicate IsPath(p: seq<Screen>) {
    && |p| >= 1
    && forall i :: 0 <= i < |p| - 1 ==> IsEdge(p[i], p[i + 1])
  }

  /** A path without its first screen is still a path. */
  lemma PathTail(p: seq<Screen>)
    requires IsPath(p) && |p| >= 2
    ensures IsPath(p[1..])
  {
    var q := p[1..];
    forall i | 0 <= i < |q| - 1 ensures IsEdge(q[i], q[i + 1]) {
      assert q[i] == p[i + 1] && q[i + 1] == p[i + 2];
    }
  }

  /** Some chain of allowed transitions leads from `a` to `b`. */
  ghost predicate Reachable(a: Screen, b: Screen) {
    exists p :: IsPath(p) && p[0] == a && p[|p| - 1] == b
  }

  /** The screens after home on a path from home to `b`. */
  function FromHome(b: Screen): (p: seq<Screen>)
    ensures IsPath([Home] + p)
    ensures ([Home] + p)[|p|] == b
  {
    match b
    case Home => []
    case Permissions => [Welcome, Permissions]
    case Accessibility => [Welcome, Permissions, Accessibility]
    case Privacy => [Welcome, Permissions, Accessibility, Privacy]
    case _ => [b]
  }

  /** A path from `a` to `b`: via home, then through onboarding where needed. */
  function PathBetween(a: Screen, b: Screen): (p: seq<Screen>)
    ensures IsPath(p)
    ensures p[0] == a && p[|p| - 1] == b
    ensures |p| <= 6
  {
    if a == b then [a]
    else if a == Home then [Home] + FromHome(b)
    else
      var q := [Home] + FromHome(b);
      var p := [a] + q;
      assert IsEdge(a, Home);
      assert p[1..] == q;
      p
  }

  /** Strong connectivity: every screen reaches every other. */
  lemma StronglyConnected(a: Screen, b: Screen)
    ensures Reachable(a, b)
  {
    var p := PathBetween(a, b);
    assert IsPath(p) && p[0] == a && p[|p| - 1] == b;
  }
}
