/**
 * The route tabs (`src/ui/Tabs.tsx`): a row of tabs, the active one chosen by
 * the parent, and a roving keyboard focus that ArrowLeft/ArrowRight move with
 * wrap-around. Tab ids are a type parameter; the app uses 'cultural' and 'stem'.
 */
module Tabs {
  import opened Text

  datatype Key = ArrowLeft | ArrowRight | OtherKey

  /** The rendered state: the tab list, the parent's `activeId`, the local `focusId`. */
  datatype TabsState<T> = TabsState(tabs: seq<T>, active: T, focus: T)

  /** `Array.prototype.findIndex` on ids: the first position holding `id`, or -1. */
  function FindIndex<T(==)>(tabs: seq<T>, id: T): (k: int)
    ensures -1 <= k < |tabs|
    ensures k == -1 <==> id !in tabs
    ensures 0 <= k ==> tabs[k] == id && id !in tabs[..k]
  {
    if tabs == [] then -1
    else if tabs[0] == id then 0
    else
      var k := FindIndex(tabs[1..], id);
      assert k >= 0 ==> tabs[..k + 1] == [tabs[0]] + tabs[1..][..k];
      if k == -1 then -1 else k + 1
  }

  /** The step an arrow key takes through the list. */
  function Direction(key: Key): int {
    if key == ArrowRight then 1 else -1
  }

  /**
   * The index the arrow key moves to, written as the wrap-around it amounts to;
   * `NextIndexIsModulo` shows it is the remainder the component computes.
   */
  function NextIndex(current: nat, key: Key, n: nat): (j: nat)
    requires current < n
    ensures j < n
    ensures key == ArrowRight ==> (current == n - 1 ==> j == 0) && (current < n - 1 ==> j == current + 1)
    ensures key == ArrowLeft ==> (current == 0 ==> j == n - 1) && (current > 0 ==> j == current - 1)
  {
    if Direction(key) == 1 then (if current == n - 1 then 0 else current + 1)
    else if current == 0 then n - 1 else current - 1
  }

  /**
   * `(currentIndex + direction + length) % length`: the dividend is never
   * negative, so JavaScript's `%` and Dafny's agree, and both give `NextIndex`.
   */
  lemma NextIndexIsModulo(current: nat, key: Key, n: nat)
    requires current < n
    ensures NextIndex(current, key, n) == (current + Direction(key) + n) % n
  {
    var x := current + Direction(key) + n;
    var j := NextIndex(current, key, n);
    if Direction(key) == 1 && current == n - 1 {
      assert x == 1 * n + n;
      assert x == 2 * n + 0;
    } else if Direction(key) == -1 && current == 0 {
      assert x == 0 * n + j;
    } else {
      assert x == 1 * n + j;
    }
  }

  /**
   * `handleKeyDown` followed by `focusTab`: the new focus id. Every tab of the
   * list is rendered, so its ref is set and `focusTab` always moves the focus.
   */
  function KeyDown<T(==)>(tabs: seq<T>, focus: T, key: Key): (r: T)
    ensures key == OtherKey ==> r == focus
    ensures focus !in tabs ==> r == focus
    ensures key != OtherKey && focus in tabs ==> r in tabs
  {
    if key == OtherKey then focus
    else
      var current := FindIndex(tabs, focus);
      if current == -1 then focus
      else tabs[NextIndex(current, key, |tabs|)]
  }

  /** The component on first render: focus starts at `activeId`. */
  function Mount<T>(tabs: seq<T>, active: T): (st: TabsState<T>)
    ensures st.focus == st.active == active && st.tabs == tabs
  {
    TabsState(tabs, active, active)
  }

  /** A new `activeId` from the parent: the effect on `[activeId]` resets the focus to it. */
  function SetActive<T(==)>(st: TabsState<T>, active: T): (r: TabsState<T>)
    ensures r.tabs == st.tabs && r.active == active
    ensures active != st.active ==> r.focus == active
    ensures active == st.active ==> r == st
  {
    if active == st.active then st else st.(active := active, focus := active)
  }

  function Press<T(==)>(st: TabsState<T>, key: Key): (r: TabsState<T>)
    ensures r.tabs == st.tabs && r.active == st.active
  {
    st.(focus := KeyDown(st.tabs, st.focus, key))
  }

  /** `tabIndex` of each tab, in order: 0 for the focused one, -1 for the rest. */
  function TabIndices<T(==)>(tabs: seq<T>, focus: T): (r: seq<int>)
    ensures |r| == |tabs|
  {
    if tabs == [] then [] else [if tabs[0] == focus then 0 else -1] + TabIndices(tabs[1..], focus)
  }

  /** `hidden` of each panel, in order. */
  function Hidden<T(==)>(tabs: seq<T>, active: T): (r: seq<bool>)
    ensures |r| == |tabs|
  {
    if tabs == [] then [] else [tabs[0] != active] + Hidden(tabs[1..], active)
  }

  lemma {:induction false} TabIndicesCount<T>(tabs: seq<T>, focus: T)
    ensures Count(TabIndices(tabs, focus), 0) == Count(tabs, focus)
    ensures forall i :: 0 <= i < |tabs| ==> (TabIndices(tabs, focus)[i] == 0 <==> tabs[i] == focus)
  {
    if tabs != [] {
      TabIndicesCount(tabs[1..], focus);
      assert TabIndices(tabs, focus)[1..] == TabIndices(tabs[1..], focus);
      forall i | 1 <= i < |tabs|
        ensures TabIndices(tabs, focus)[i] == 0 <==> tabs[i] == focus
      {
        assert tabs[1..][i - 1] == tabs[i];
      }
    }
  }

  lemma {:induction false} HiddenCount<T>(tabs: seq<T>, active: T)
    ensures Count(Hidden(tabs, active), false) == Count(tabs, active)
    ensures forall i :: 0 <= i < |tabs| ==> (!Hidden(tabs, active)[i] <==> tabs[i] == active)
  {
    if tabs != [] {
      HiddenCount(tabs[1..], active);
      assert Hidden(tabs, active)[1..] == Hidden(tabs[1..], active);
      forall i | 1 <= i < |tabs|
        ensures !Hidden(tabs, active)[i] <==> tabs[i] == active
      {
        assert tabs[1..][i - 1] == tabs[i];
      }
    }
  }

  /** With distinct ids and the focus on a tab, exactly the focused tab has tabIndex 0. */
  lemma ExactlyOneTabStop<T>(tabs: seq<T>, focus: T)
    requires Distinct(tabs) && focus in tabs
    ensures Count(TabIndices(tabs, focus), 0) == 1
    ensures forall i :: 0 <= i < |tabs| ==> (TabIndices(tabs, focus)[i] == 0 <==> tabs[i] == focus)
  {
    TabIndicesCount(tabs, focus);
    CountDistinct(tabs, focus);
  }

  /** With distinct ids and `activeId` among them, exactly its panel is shown. */
  lemma ExactlyOnePanelShown<T>(tabs: seq<T>, active: T)
    requires Distinct(tabs) && active in tabs
    ensures Count(Hidden(tabs, active), false) == 1
    ensures forall i :: 0 <= i < |tabs| ==> (!Hidden(tabs, active)[i] <==> tabs[i] == active)
  {
    HiddenCount(tabs, active);
    CountDistinct(tabs, active);
  }

  lemma FindIndexDistinct<T>(tabs: seq<T>, k: nat)
    requires Distinct(tabs) && k < |tabs|
    ensures FindIndex(tabs, tabs[k]) == k
  {
  }

  /** ArrowRight on the last tab focuses the first; ArrowLeft on the first focuses the last. */
  lemma WrapAround<T>(tabs: seq<T>)
    requires Distinct(tabs) && |tabs| >= 1
    ensures KeyDown(tabs, tabs[|tabs| - 1], ArrowRight) == tabs[0]
    ensures KeyDown(tabs, tabs[0], ArrowLeft) == tabs[|tabs| - 1]
  {
    FindIndexDistinct(tabs, |tabs| - 1);
    FindIndexDistinct(tabs, 0);
  }

  /** ArrowRight then ArrowLeft (and the reverse) returns the focus to where it was. */
  lemma RightThenLeft<T>(tabs: seq<T>, focus: T)
    requires Distinct(tabs)
    ensures KeyDown(tabs, KeyDown(tabs, focus, ArrowRight), ArrowLeft) == focus
    ensures KeyDown(tabs, KeyDown(tabs, focus, ArrowLeft), ArrowRight) == focus
  {
    if focus in tabs {
      var k := FindIndex(tabs, focus);
      var n := |tabs|;
      var r := NextIndex(k, ArrowRight, n);
      FindIndexDistinct(tabs, r);
      var l := NextIndex(k, ArrowLeft, n);
      FindIndexDistinct(tabs, l);
    }
  }

  /** The focus after `m` presses of the same key. */
  function Presses<T(==)>(tabs: seq<T>, focus: T, key: Key, m: nat): T {
    if m == 0 then focus else KeyDown(tabs, Presses(tabs, focus, key, m - 1), key)
  }

  /** The position the focus reaches after `m` presses of the same arrow from position `k`. */
  function PressIndex(k: nat, key: Key, n: nat, m: nat): (j: nat)
    requires k < n
    ensures j < n
  {
    if m == 0 then k else NextIndex(PressIndex(k, key, n, m - 1), key, n)
  }

  /** With distinct ids, pressing an arrow follows the positions `PressIndex` computes. */
  lemma {:induction false} PressesAt<T>(tabs: seq<T>, k: nat, key: Key, m: nat)
    requires Distinct(tabs) && k < |tabs| && key != OtherKey
    ensures Presses(tabs, tabs[k], key, m) == tabs[PressIndex(k, key, |tabs|, m)]
  {
    if m > 0 {
      var a := PressIndex(k, key, |tabs|, m - 1);
      PressesAt(tabs, k, key, m - 1);
      KeyDownAt(tabs, a, key);
    }
  }

  lemma {:induction false} PressIndexRight(k: nat, n: nat, m: nat)
    requires k < n && m <= n
    ensures PressIndex(k, ArrowRight, n, m) == if k + m < n then k + m else k + m - n
  {
    if m > 0 {
      PressIndexRight(k, n, m - 1);
    }
  }

  lemma {:induction false} PressIndexLeft(k: nat, n: nat, m: nat)
    requires k < n && m <= n
    ensures PressIndex(k, ArrowLeft, n, m) == if m <= k then k - m else k - m + n
  {
    if m > 0 {
      PressIndexLeft(k, n, m - 1);
    }
  }

  /** Up to a full turn, `m` ArrowRight presses from tab k land `m` tabs further on, wrapping past the end. */
  lemma PressesRight<T>(tabs: seq<T>, k: nat, m: nat)
    requires Distinct(tabs) && k < |tabs| && m <= |tabs|
    ensures Presses(tabs, tabs[k], ArrowRight, m) == tabs[if k + m < |tabs| then k + m else k + m - |tabs|]
  {
    PressesAt(tabs, k, ArrowRight, m);
    PressIndexRight(k, |tabs|, m);
  }

  /** Up to a full turn, `m` ArrowLeft presses from tab k land `m` tabs back, wrapping past the start. */
  lemma PressesLeft<T>(tabs: seq<T>, k: nat, m: nat)
    requires Distinct(tabs) && k < |tabs| && m <= |tabs|
    ensures Presses(tabs, tabs[k], ArrowLeft, m) == tabs[if m <= k then k - m else k - m + |tabs|]
  {
    PressesAt(tabs, k, ArrowLeft, m);
    PressIndexLeft(k, |tabs|, m);
  }

  /** An arrow on the tab at position `a` of a list without repetitions moves to the neighbouring position. */
  lemma KeyDownAt<T>(tabs: seq<T>, a: nat, key: Key)
    requires Distinct(tabs) && a < |tabs| && key != OtherKey
    ensures KeyDown(tabs, tabs[a], key) == tabs[NextIndex(a, key, |tabs|)]
  {
    FindIndexDistinct(tabs, a);
  }

  /** Pressing the same arrow once per tab brings the focus back to where it started. */
  lemma FullCycle<T>(tabs: seq<T>, focus: T, key: Key)
    requires Distinct(tabs)
    ensures Presses(tabs, focus, key, |tabs|) == focus
  {
    if focus in tabs && key != OtherKey {
      var k := FindIndex(tabs, focus);
      if key == ArrowRight {
        PressesRight(tabs, k, |tabs|);
      } else {
        PressesLeft(tabs, k, |tabs|);
      }
    } else {
      PressesFixed(tabs, focus, key, |tabs|);
    }
  }

  lemma {:induction false} PressesFixed<T>(tabs: seq<T>, focus: T, key: Key, m: nat)
    requires focus !in tabs || key == OtherKey
    ensures Presses(tabs, focus, key, m) == focus
  {
    if m > 0 {
      PressesFixed(tabs, focus, key, m - 1);
    }
  }

  // The component as a state machine.

  datatype TabsEvent<T> = Keyboard(key: Key) | ParentSelects(id: T)

  function Apply<T(==)>(st: TabsState<T>, e: TabsEvent<T>): TabsState<T> {
    match e
    case Keyboard(key) => Press(st, key)
    case ParentSelects(id) => SetActive(st, id)
  }

  function ApplyAll<T(==)>(st: TabsState<T>, es: seq<TabsEvent<T>>): TabsState<T>
    decreases |es|
  {
    if es == [] then st else ApplyAll(Apply(st, es[0]), es[1..])
  }

  /**
   * Mounted with distinct ids and kept with `activeId` among them, the focus is
   * always on some tab, so exactly one tab is reachable by Tab and exactly one
   * panel is shown.
   */
  lemma {:induction false} FocusStaysOnATab<T>(st: TabsState<T>, es: seq<TabsEvent<T>>)
    requires Distinct(st.tabs) && st.focus in st.tabs && st.active in st.tabs
    requires forall i :: 0 <= i < |es| ==> es[i].ParentSelects? ==> es[i].id in st.tabs
    ensures var r := ApplyAll(st, es);
            && r.tabs == st.tabs && r.focus in r.tabs && r.active in r.tabs
            && Count(TabIndices(r.tabs, r.focus), 0) == 1
            && Count(Hidden(r.tabs, r.active), false) == 1
    decreases |es|
  {
    if es == [] {
      ExactlyOneTabStop(st.tabs, st.focus);
      ExactlyOnePanelShown(st.tabs, st.active);
    } else {
      var next := Apply(st, es[0]);
      assert next.focus in next.tabs && next.active in next.tabs;
      forall i | 0 <= i < |es[1..]| && es[1..][i].ParentSelects?
        ensures es[1..][i].id in st.tabs
      {
        assert es[1..][i] == es[i + 1];
      }
      FocusStaysOnATab(next, es[1..]);
    }
  }
}
