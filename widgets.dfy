/**
 The small widgets of js/main.js: quiz items (166-172), the shared image
 modal (177-214), the sidebar's current-page marking (219-226) and the
 mobile sidebar toggle (231-248). Each listener is a step function from
 the element's state before the event to its state after it.
 */
module Widgets {

  /** A `.quiz-item` click: `classList.toggle('checked')`. */
  function QuizClick(checked: bool): (r: bool)
    ensures r != checked
  {
    !checked
  }

  // ---------------------------------------------------------------------
  // Image modal

  /** The overlay's `active` class and the modal image's `src` and `alt`. */
  datatype Modal = Modal(active: bool, src: string, alt: string)

  datatype ModalEvent =
    | ImageClick(src: string, alt: string)  // a zoomable image is clicked
    | CloseClick                            // the ✕ button
    | OverlayClick(onOverlay: bool)         // a click reaching the overlay; is the target the overlay itself?
    | KeyDown(key: string)                  // any key pressed in the document

  /** The events that converge on closing the modal. */
  predicate Dismisses(e: ModalEvent) {
    || e.CloseClick?
    || (e.OverlayClick? && e.onOverlay)
    || (e.KeyDown? && e.key == "Escape")
  }

  /** What the modal's listeners do with one event. A click on the ✕ button
      also reaches the overlay, but its target is the button, so only the
      button's listener acts. */
  function ModalStep(m: Modal, e: ModalEvent): (r: Modal)
    ensures r.active <==> e.ImageClick? || (m.active && !Dismisses(e))
    ensures e.ImageClick? ==> r.src == e.src && r.alt == e.alt
    ensures !e.ImageClick? ==> r.src == m.src && r.alt == m.alt
  {
    match e
    case ImageClick(src, alt) => Modal(true, src, alt)
    case CloseClick => m.(active := false)
    case OverlayClick(onOverlay) => if onOverlay then m.(active := false) else m
    case KeyDown(key) => if key == "Escape" then m.(active := false) else m
  }

  /** Closing twice is closing once, and an event that neither opens nor
      closes leaves the modal as it is. */
  lemma ModalDismissIdempotent(m: Modal, e: ModalEvent, f: ModalEvent)
    requires Dismisses(e) && Dismisses(f)
    ensures ModalStep(ModalStep(m, e), f) == ModalStep(m, e)
  {
  }

  // ---------------------------------------------------------------------
  // Mobile sidebar

  /** One click anywhere on the page and the sidebar's `open` class after it.
      Without both a sidebar and a toggle no listener exists. A click inside
      the toggle flips the class and the document listener then ignores it;
      a click inside the sidebar changes nothing; any other click closes. */
  function SidebarClick(present: bool, open: bool, inSidebar: bool, inToggle: bool): (r: bool)
    ensures !present ==> r == open
    ensures present && inToggle ==> r == !open
    ensures present && !inToggle && inSidebar ==> r == open
    ensures present && !inToggle && !inSidebar ==> !r
  {
    if !present then open
    else
      var afterToggle := if inToggle then !open else open;
      if afterToggle && !inSidebar && !inToggle then false else afterToggle
  }

  /** Two clicks on the toggle give the sidebar back as it was. */
  lemma SidebarToggleTwice(open: bool, inSidebar: bool)
    ensures SidebarClick(true, SidebarClick(true, open, inSidebar, true), inSidebar, true) == open
  {
  }

  // ---------------------------------------------------------------------
  // Current page in the sidebar

  /** `sub` occurs in `s` starting at `i`. */
  predicate OccursAt(s: string, sub: string, i: nat) {
    i + |sub| <= |s| && s[i..i + |sub|] == sub
  }

  /** `s.includes(sub)`, searching from position `from`. */
  function IncludesFrom(s: string, sub: string, from: nat): (b: bool)
    ensures b <==> exists i: nat :: from <= i && OccursAt(s, sub, i)
    decreases |s| - from
  {
    if from + |sub| > |s| then false
    else if s[from..from + |sub|] == sub then
      assert OccursAt(s, sub, from);
      true
    else
      var b := IncludesFrom(s, sub, from + 1);
      assert forall i: nat :: from <= i && OccursAt(s, sub, i) ==> i == from || from + 1 <= i;
      b
  }

  function Includes(s: string, sub: string): (b: bool)
    ensures b <==> exists i: nat :: OccursAt(s, sub, i)
  {
    IncludesFrom(s, sub, 0)
  }

  /** `initSidebarActiveState`: every nav link whose `href` occurs in the
      path gains `active`; none loses it. An empty `href` occurs everywhere. */
  method MarkActiveLinks(path: string, hrefs: seq<string>, active: array<bool>)
    requires active.Length == |hrefs|
    modifies active
    ensures forall i :: 0 <= i < active.Length ==> active[i] == (old(active[i]) || Includes(path, hrefs[i]))
  {
    var i := 0;
    while i < active.Length
      invariant 0 <= i <= active.Length
      invariant forall j :: 0 <= j < i ==> active[j] == (old(active[j]) || Includes(path, hrefs[j]))
      invariant forall j :: i <= j < active.Length ==> active[j] == old(active[j])
    {
      if Includes(path, hrefs[i]) {
        active[i] := true;
      }
      i := i + 1;
    }
  }

  lemma EmptyHrefAlwaysIncluded(path: string)
    ensures Includes(path, "")
  {
    assert OccursAt(path, "", 0);
  }
}
