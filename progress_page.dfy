/**
 The progress record as the pages hold it (js/main.js:65-147 and 274-294):
 local storage under the progress key, the chapter page's completion
 button, sidebar and header widgets, and the index page's overall bar and
 chapter cards. Each widget that a page may lack has a `has...` flag; a
 missing widget is left alone.
 */
module ProgressPage {
  import opened Common
  import opened Progress
  import ChapterUrl

  const DoneButtonText := "✅ 완료됨"
  const UndoneButtonText := "⬜ 완료 체크"

  /** The local-storage entry under `git-lecture-progress`. */
  class ProgressStore {
    var item: StoredItem

    constructor (initial: StoredItem)
      ensures item == initial
    {
      item := initial;
    }

    /** `getProgress()`. */
    function Get(): (m: ProgressMap)
      reads this
      ensures item.Serialized? ==> m == item.entries
      ensures !item.Serialized? ==> m == map[]
    {
      Load(item)
    }

    /** `saveProgress(data)`: the next read gives `data` back. */
    method Save(data: ProgressMap)
      modifies this
      ensures item == Serialized(data) && Get() == data
    {
      item := Serialized(data);
    }
  }

  class ChapterPage {
    const store: ProgressStore

    // .btn-complete
    const hasButton: bool
    var chapterId: Option<string>   // Some(id) once a click listener is attached
    var buttonDone: bool            // class 'done'
    var buttonText: string
    var toastsShown: nat            // calls of showCompletionToast

    // .progress-bar-fill, .progress-label span:last-child, .sidebar-nav a[data-chapter]
    const hasFill: bool
    var fillPct: nat
    const hasLabel: bool
    var labelText: string
    const navIds: seq<string>
    const navCompleted: array<bool>  // class 'completed' on each nav link

    // .chapter-progress-text
    const hasHeader: bool
    var headerText: string

    ghost predicate Valid()
      reads this
    {
      navCompleted.Length == |navIds|
    }

    /** The sidebar, header and nav links show what `store` holds. */
    ghost predicate Rendered()
      reads this, store, navCompleted
      requires Valid()
    {
      var count := CompletedCount(store.Get());
      && (hasFill ==> fillPct == Percent(count))
      && (hasLabel ==> labelText == SidebarLabel(count))
      && (hasHeader ==> headerText == HeaderLabel(count))
      && forall i :: 0 <= i < |navIds| ==> navCompleted[i] == Truthy(store.Get(), navIds[i])
    }

    /** A freshly loaded page, before any handler has run. */
    constructor (store: ProgressStore, hasButton: bool, hasFill: bool, hasLabel: bool,
                 hasHeader: bool, navIds: seq<string>, navCompleted: array<bool>)
      requires navCompleted.Length == |navIds|
      ensures Valid()
      ensures this.store == store && this.hasButton == hasButton && this.hasFill == hasFill
      ensures this.hasLabel == hasLabel && this.hasHeader == hasHeader
      ensures this.navIds == navIds && this.navCompleted == navCompleted
      ensures chapterId.None? && !buttonDone && toastsShown == 0
    {
      this.store := store;
      this.hasButton := hasButton;
      this.hasFill := hasFill;
      this.hasLabel := hasLabel;
      this.hasHeader := hasHeader;
      this.navIds := navIds;
      this.navCompleted := navCompleted;
      chapterId := None;
      buttonDone := false;
      buttonText := UndoneButtonText;
      toastsShown := 0;
      fillPct := 0;
      labelText := "";
      headerText := "";
    }

    /** `updateSidebarProgress()`: bar, label and every nav link's
        `completed` class follow the stored mapping. Its outcome depends on
        the mapping alone, so running it again changes nothing. */
    method UpdateSidebarProgress()
      requires Valid()
      modifies this`fillPct, this`labelText, navCompleted
      ensures Valid()
      ensures hasFill ==> fillPct == Percent(CompletedCount(store.Get()))
      ensures !hasFill ==> fillPct == old(fillPct)
      ensures hasLabel ==> labelText == SidebarLabel(CompletedCount(store.Get()))
      ensures !hasLabel ==> labelText == old(labelText)
      ensures forall i :: 0 <= i < |navIds| ==> navCompleted[i] == Truthy(store.Get(), navIds[i])
    {
      var count := CompletedCount(store.Get());
      var pct := Percent(count);
      if hasFill {
        fillPct := pct;
      }
      if hasLabel {
        labelText := SidebarLabel(count);
      }
      var progress := store.Get();
      var i := 0;
      while i < navCompleted.Length
        invariant 0 <= i <= navCompleted.Length
        invariant forall j :: 0 <= j < i ==> navCompleted[j] == Truthy(progress, navIds[j])
        modifies navCompleted
      {
        navCompleted[i] := Truthy(progress, navIds[i]);
        i := i + 1;
      }
    }

    /** `updateHeaderProgress()`. */
    method UpdateHeaderProgress()
      modifies this`headerText
      ensures hasHeader ==> headerText == HeaderLabel(CompletedCount(store.Get()))
      ensures !hasHeader ==> headerText == old(headerText)
    {
      if hasHeader {
        headerText := HeaderLabel(CompletedCount(store.Get()));
      }
    }

    /** `initCompleteButton()`: resolve the chapter id; without a button or
        an id no listener is attached. A chapter already complete shows it. */
    method InitCompleteButton(dataChapter: Option<string>, path: string)
      requires chapterId.None?
      modifies this`chapterId, this`buttonDone, this`buttonText
      ensures chapterId == if hasButton then ChapterUrl.ResolveChapterId(dataChapter, path) else None
      ensures chapterId.Some? && Truthy(store.Get(), chapterId.value) ==>
        buttonDone && buttonText == DoneButtonText
      ensures !(chapterId.Some? && Truthy(store.Get(), chapterId.value)) ==>
        buttonDone == old(buttonDone) && buttonText == old(buttonText)
    {
      if !hasButton {
        return;
      }
      var id := ChapterUrl.ResolveChapterId(dataChapter, path);
      if id.None? {
        return;
      }
      chapterId := id;
      var progress := store.Get();
      if Truthy(progress, id.value) {
        buttonDone := true;
        buttonText := DoneButtonText;
      }
    }

    /** The button's click listener, attached only for a resolved id: flip the
        chapter in storage, relabel the button, celebrate a completion, and
        re-render the sidebar and header. */
    method ClickComplete()
      requires Valid() && chapterId.Some?
      modifies this, store, navCompleted
      ensures Valid() && chapterId == old(chapterId)
      ensures store.Get() == Toggled(old(store.Get()), chapterId.value)
      ensures store.item.Serialized?
      ensures buttonDone == Truthy(store.Get(), chapterId.value)
      ensures buttonText == if buttonDone then DoneButtonText else UndoneButtonText
      ensures toastsShown == old(toastsShown) + if buttonDone then 1 else 0
      ensures Rendered()
      ensures !hasFill ==> fillPct == old(fillPct)
      ensures !hasLabel ==> labelText == old(labelText)
      ensures !hasHeader ==> headerText == old(headerText)
    {
      var id := chapterId.value;
      var prog := store.Get();
      if Truthy(prog, id) {
        prog := prog - {id};
        buttonDone := false;
        buttonText := UndoneButtonText;
      } else {
        prog := prog[id := true];
        buttonDone := true;
        buttonText := DoneButtonText;
        toastsShown := toastsShown + 1;
      }
      store.Save(prog);
      UpdateSidebarProgress();
      UpdateHeaderProgress();
    }
  }

  /** Two clicks on the completion button leave storage as it was, provided
      it held only `true` values, as everything this page writes does. */
  method ClickTwice(page: ChapterPage)
    requires page.Valid() && page.chapterId.Some?
    requires AllTrue(page.store.Get())
    modifies page, page.store, page.navCompleted
    ensures page.store.Get() == old(page.store.Get())
    ensures page.buttonDone == old(Truthy(page.store.Get(), page.chapterId.value))
    ensures page.toastsShown == old(page.toastsShown) + 1
  {
    ghost var before := page.store.Get();
    page.ClickComplete();
    ToggleKeepsAllTrue(before, page.chapterId.value);
    page.ClickComplete();
    ToggleTwice(before, page.chapterId.value);
  }

  class IndexPage {
    const store: ProgressStore

    // .op-fill, .op-pct
    const hasFill: bool
    var fillPct: nat
    const hasPct: bool
    var pctText: string

    // .chapter-card[data-chapter] and its .card-status
    const cardIds: seq<string>
    const cardHasStatus: seq<bool>
    const cardDone: array<bool>   // status shows '✅ 완료' with class 'card-status done'

    ghost predicate Valid()
      reads this
    {
      cardDone.Length == |cardIds| == |cardHasStatus|
    }

    constructor (store: ProgressStore, hasFill: bool, hasPct: bool, cardIds: seq<string>,
                 cardHasStatus: seq<bool>, cardDone: array<bool>)
      requires cardDone.Length == |cardIds| == |cardHasStatus|
      ensures Valid()
      ensures this.store == store && this.hasFill == hasFill && this.hasPct == hasPct
      ensures this.cardIds == cardIds && this.cardHasStatus == cardHasStatus
      ensures this.cardDone == cardDone
    {
      this.store := store;
      this.hasFill := hasFill;
      this.hasPct := hasPct;
      this.cardIds := cardIds;
      this.cardHasStatus := cardHasStatus;
      this.cardDone := cardDone;
      fillPct := 0;
      pctText := "";
    }

    /** `initIndexPage()`: the overall bar and percentage, and each card with
        a status element whose chapter is complete is marked done. Cards are
        never unmarked. */
    method InitIndexPage()
      requires Valid()
      modifies this`fillPct, this`pctText, cardDone
      ensures Valid()
      ensures hasFill ==> fillPct == Percent(CompletedCount(store.Get()))
      ensures !hasFill ==> fillPct == old(fillPct)
      ensures hasPct ==> pctText == PercentText(Percent(CompletedCount(store.Get())))
      ensures !hasPct ==> pctText == old(pctText)
      ensures forall i :: 0 <= i < cardDone.Length ==>
        cardDone[i] == (old(cardDone[i]) || (cardHasStatus[i] && Truthy(store.Get(), cardIds[i])))
    {
      var progress := store.Get();
      var count := CompletedCount(store.Get());
      var pct := Percent(count);
      if hasFill {
        fillPct := pct;
      }
      if hasPct {
        pctText := PercentText(pct);
      }
      var i := 0;
      while i < cardDone.Length
        invariant 0 <= i <= cardDone.Length
        invariant forall j :: 0 <= j < i ==>
          cardDone[j] == (old(cardDone[j]) || (cardHasStatus[j] && Truthy(progress, cardIds[j])))
        invariant forall j :: i <= j < cardDone.Length ==> cardDone[j] == old(cardDone[j])
        modifies cardDone
      {
        if cardHasStatus[i] && Truthy(progress, cardIds[i]) {
          cardDone[i] := true;
        }
        i := i + 1;
      }
    }
  }
}
