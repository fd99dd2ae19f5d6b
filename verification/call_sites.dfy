/**
 * Every `go(...)` call in the modelled screen components, as the pair (screen
 * the component is rendered on, requested target). The lemmas check them
 * against the transition table: each is an edge or a request for the current
 * screen, so no button or timer in these components is ever refused by the
 * guard.
 */
module CallSites {
  import opened Screens
  import opened Navigation
  import Controller

  datatype Site = Site(from: Screen, to: Screen)

  /** A request the guard accepts: an edge, or the current screen (a no-op). */
  predicate Accepted(site: Site) {
    site.to == site.from || IsEdge(site.from, site.to)
  }

  /** Calls in the onboarding components. */
  const Onboarding: seq<Site> := [
    Site(Welcome, Permissions),       // Welcome.tsx:99
    Site(Permissions, Accessibility), // Permissions.tsx:16 (camera granted)
    Site(Permissions, Accessibility), // Permissions.tsx:21 (skipped)
    Site(Accessibility, Privacy),     // AccessibilitySetup.tsx:70
    Site(Privacy, Home)               // PrivacyStart.tsx:52
  ]

  /** Calls in the scan flow. */
  const Scan: seq<Site> := [
    Site(ScanIdle, ErrorCamera),        // ScanIdle.tsx:17 (no camera permission)
    Site(ScanIdle, ScanDetecting),      // ScanIdle.tsx:43
    Site(ScanIdle, Home),               // ScanIdle.tsx:47
    Site(ScanDetecting, ScanDetected),  // ScanDetecting.tsx:31 (detection timer)
    Site(ScanDetected, ScanIdle),       // ScanDetected.tsx:20 (no plant)
    Site(ScanDetected, Cultural),       // ScanDetected.tsx:45
    Site(ScanDetected, Stem),           // ScanDetected.tsx:48
    Site(ScanDetected, ScanIdle)        // ScanDetected.tsx:51
  ]

  /** Navigation items shared by the home screen, the journal list and settings. */
  const NavItems: seq<Screen> := [Home, ScanIdle, JournalList, Settings]

  /** Calls on the home screen, the journal screens and settings. */
  const Hub: seq<Site> := [
    Site(Home, ScanIdle),            // Home.tsx:33
    Site(Home, Cultural),            // Home.tsx:39
    Site(Home, JournalList),         // Home.tsx:55
    Site(Home, Settings),            // Home.tsx:61
    Site(Home, Educator),            // Home.tsx:67
    Site(JournalList, JournalEntry), // JournalList.tsx:55
    Site(JournalList, JournalEntry), // JournalList.tsx:72
    Site(JournalList, JournalEntry), // JournalList.tsx:106
    Site(JournalEntry, JournalList), // JournalEntry.tsx:99 (after saving)
    Site(JournalEntry, JournalList)  // JournalEntry.tsx:190 (cancel)
  ]

  /** Calls in the plant views and the simulation. */
  const Routes: seq<Site> := [
    Site(Cultural, JournalEntry),   // CulturalTab.tsx:59
    Site(Cultural, JournalEntry),   // CulturalTab.tsx:113
    Site(Cultural, Stem),           // CulturalTab.tsx:143
    Site(Stem, Simulation),         // STEMTab.tsx:115
    Site(Stem, Cultural),           // STEMTab.tsx:122
    Site(Stem, Home),               // STEMTab.tsx:125
    Site(Simulation, JournalEntry), // TimeShiftSimulation.tsx:59 (no plant)
    Site(Simulation, JournalEntry), // TimeShiftSimulation.tsx:71
    Site(Offline, Home)             // App.tsx:385 (retry while online)
  ]

  /** The bottom-navigation items rendered on `from`, each a `go(item.screen)` call. */
  function NavSites(from: Screen): (sites: seq<Site>)
    ensures |sites| == |NavItems|
    ensures forall i :: 0 <= i < |sites| ==> sites[i] == Site(from, NavItems[i])
  {
    [Site(from, Home), Site(from, ScanIdle), Site(from, JournalList), Site(from, Settings)]
  }

  /** The route tabs on both plant views: a click calls `go(id)`. */
  const RouteTabs: seq<Screen> := [Cultural, Stem]

  function TabSites(from: Screen): (sites: seq<Site>)
    ensures |sites| == |RouteTabs|
    ensures forall i :: 0 <= i < |sites| ==> sites[i] == Site(from, RouteTabs[i])
  {
    [Site(from, Cultural), Site(from, Stem)]
  }

  /** Every call site listed above. */
  function AllSites(): seq<Site> {
    Onboarding + Scan + Hub + Routes
      + NavSites(Home) + NavSites(JournalList) + NavSites(Settings)
      + TabSites(Cultural) + TabSites(Stem)
  }

  lemma OnboardingAccepted()
    ensures forall i :: 0 <= i < |Onboarding| ==> Accepted(Onboarding[i])
  {
  }

  lemma ScanAccepted()
    ensures forall i :: 0 <= i < |Scan| ==> Accepted(Scan[i])
  {
  }

  lemma HubAccepted()
    ensures forall i :: 0 <= i < |Hub| ==> Accepted(Hub[i])
  {
  }

  lemma RoutesAccepted()
    ensures forall i :: 0 <= i < |Routes| ==> Accepted(Routes[i])
  {
  }

  lemma NavAndTabsAccepted()
    ensures forall i :: 0 <= i < |NavItems| ==> Accepted(NavSites(Home)[i])
    ensures forall i :: 0 <= i < |NavItems| ==> Accepted(NavSites(JournalList)[i])
    ensures forall i :: 0 <= i < |NavItems| ==> Accepted(NavSites(Settings)[i])
    ensures forall i :: 0 <= i < |RouteTabs| ==> Accepted(TabSites(Cultural)[i])
    ensures forall i :: 0 <= i < |RouteTabs| ==> Accepted(TabSites(Stem)[i])
  {
  }

  /** No listed call is refused by the guard. */
  lemma EverySiteAccepted()
    ensures forall i :: 0 <= i < |AllSites()| ==> Accepted(AllSites()[i])
  {
    OnboardingAccepted();
    ScanAccepted();
    HubAccepted();
    RoutesAccepted();
    NavAndTabsAccepted();
  }

  /**
   * Fired while its component is on screen, every listed call ends on the
   * screen it asks for.
   */
  lemma EverySiteCommits(s: Controller.AppState, i: nat)
    requires i < |AllSites()| && s.screen == AllSites()[i].from
    ensures Controller.Go(s, AllSites()[i].to).screen == AllSites()[i].to
  {
    EverySiteAccepted();
  }

  /** The placeholder screen offers a button per table entry, so each of its calls commits too. */
  lemma PlaceholderCommits(s: Controller.AppState, i: nat)
    requires i < |AllowedTransitions(s.screen)|
    ensures Controller.Go(s, AllowedTransitions(s.screen)[i]).screen == AllowedTransitions(s.screen)[i]
  {
  }
}
