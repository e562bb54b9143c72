/**
 Tab groups (js/main.js:253-269 for diagram tabs, js/practice.js:40-56 for
 state panels). A group's tabs and its panels are two rows of `active`
 flags; a click clears both rows and then marks the clicked tab and the
 panel at the same index, if there is one.
 */
module Tabs {
  import opened Common

  /** The click handler of tab `i`: `tabs.forEach(remove)`,
      `panels.forEach(remove)`, then `add` on tab `i` and on panel `i`. */
  method SelectTab(tabs: array<bool>, panels: array<bool>, i: nat)
    requires i < tabs.Length
    requires tabs != panels
    modifies tabs, panels
    ensures forall j :: 0 <= j < tabs.Length ==> tabs[j] == (j == i)
    ensures forall j :: 0 <= j < panels.Length ==> panels[j] == (j == i)
  {
    var k := 0;
    while k < tabs.Length
      invariant 0 <= k <= tabs.Length
      invariant forall j :: 0 <= j < k ==> !tabs[j]
      modifies tabs
    {
      tabs[k] := false;
      k := k + 1;
    }
    k := 0;
    while k < panels.Length
      invariant 0 <= k <= panels.Length
      invariant forall j :: 0 <= j < k ==> !panels[j]
      modifies panels
    {
      panels[k] := false;
      k := k + 1;
    }
    tabs[i] := true;
    if i < panels.Length {
      panels[i] := true;
    }
  }

  /** After a click exactly one tab of the group is active. */
  lemma {:induction false} SelectedExactlyOne(s: seq<bool>, i: nat)
    requires i < |s|
    requires forall j :: 0 <= j < |s| ==> s[j] == (j == i)
    ensures CountTrue(s) == 1
  {
    var init := s[..|s| - 1];
    if i == |s| - 1 {
      CountNoneIff(init);
    } else {
      SelectedExactlyOne(init, i);
    }
  }

  /** After a click at most one panel is active: none when the group has
      fewer panels than tabs and the click was past them. */
  lemma PanelsAtMostOne(s: seq<bool>, i: nat)
    requires forall j :: 0 <= j < |s| ==> s[j] == (j == i)
    ensures CountTrue(s) == if i < |s| then 1 else 0
  {
    if i < |s| {
      SelectedExactlyOne(s, i);
    } else {
      CountNoneIff(s);
    }
  }

  /** `initDiagramTabs`: a `.diagram-tabs` without a `.diagram-interactive`
      ancestor gets no listeners, so clicking its tabs changes nothing. */
  method ClickDiagramTab(hasInteractiveParent: bool, tabs: array<bool>, panels: array<bool>, i: nat)
    requires i < tabs.Length && tabs != panels
    modifies tabs, panels
    ensures hasInteractiveParent ==> forall j :: 0 <= j < tabs.Length ==> tabs[j] == (j == i)
    ensures hasInteractiveParent ==> forall j :: 0 <= j < panels.Length ==> panels[j] == (j == i)
    ensures !hasInteractiveParent ==> tabs[..] == old(tabs[..]) && panels[..] == old(panels[..])
  {
    if hasInteractiveParent {
      SelectTab(tabs, panels, i);
    }
  }

  /** What the state-panel setup does to one row of flags: the first one is
      set and nothing is cleared. */
  function MarkFirst(s: seq<bool>): (r: seq<bool>)
    ensures |r| == |s|
    ensures |s| > 0 ==> r[0]
    ensures forall j :: 0 < j < |s| ==> r[j] == s[j]
  {
    if |s| > 0 then s[0 := true] else s
  }

  /** Setup of a `.state-panel`: tab 0 and view 0 become active, if present. */
  method InitStatePanel(tabs: array<bool>, views: array<bool>)
    requires tabs != views
    modifies tabs, views
    ensures tabs[..] == MarkFirst(old(tabs[..]))
    ensures views[..] == MarkFirst(old(views[..]))
  {
    if tabs.Length > 0 {
      tabs[0] := true;
    }
    if views.Length > 0 {
      views[0] := true;
    }
  }

  /** Setup alone does not make the tabs exclusive: a tab the markup already
      marked active stays active beside tab 0 until the first click. */
  lemma InitNotExclusive()
    ensures CountTrue(MarkFirst([false, true])) == 2
  {
    assert MarkFirst([false, true]) == [true, true];
    assert [true, true][..1] == [true];
  }
}
