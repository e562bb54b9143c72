/**
 The practice page (js/practice.js): step check buttons, each section's
 mission progress, and the scenario cards. State tabs use `Tabs.SelectTab`
 and `Tabs.InitStatePanel`.
 */
module Practice {
  import opened Common

  const DoneCheckText := "✅ 완료"
  const UndoneCheckText := "⬜ 완료"

  /** The check button's label for a step's state: the done label exactly
      for a done step. */
  function CheckText(done: bool): (r: string)
    ensures r == DoneCheckText <==> done
    ensures r == UndoneCheckText <==> !done
  {
    assert DoneCheckText[0] != UndoneCheckText[0];
    if done then DoneCheckText else UndoneCheckText
  }

  /** `${done} / ${total} 완료`: it opens with the done count. */
  function MissionLabel(done: nat, total: nat): (r: string)
    ensures var k := |Decimal(done)|;
      k < |r| && AllDigits(r[..k]) && !IsDigit(r[k]) && DigitsValue(r[..k]) == done
  {
    var rest := " / " + Decimal(total) + " 완료";
    ReadLeadingNumber(done, rest);
    Decimal(done) + rest
  }

  /** `done === total && total > 0` over the section's `step-done` flags. */
  predicate MissionComplete(steps: seq<bool>) {
    CountTrue(steps) == |steps| && |steps| > 0
  }

  /** A section is complete exactly when it has steps and all are done. */
  lemma MissionCompleteIff(steps: seq<bool>)
    ensures MissionComplete(steps) <==> |steps| > 0 && forall j :: 0 <= j < |steps| ==> steps[j]
  {
    CountAllIff(steps);
  }

  /** Un-doing any step of a complete section makes it incomplete again. */
  lemma UndoBreaksCompletion(steps: seq<bool>, i: nat)
    requires MissionComplete(steps) && i < |steps|
    ensures !MissionComplete(steps[i := false])
  {
    MissionCompleteIff(steps[i := false]);
    assert !steps[i := false][i];
  }

  /** Flipping one step moves the done count by exactly one. */
  lemma FlipStepCount(steps: seq<bool>, i: nat)
    requires i < |steps|
    ensures CountTrue(steps[i := !steps[i]]) == if steps[i] then CountTrue(steps) - 1 else CountTrue(steps) + 1
  {
    CountUpdate(steps, i, !steps[i]);
  }

  /** Steps [done, done, not done] read `2 / 3` and are not complete; doing
      the third step completes the section. */
  lemma MissionExample()
    ensures CountTrue([true, true, false]) == 2
    ensures !MissionComplete([true, true, false])
    ensures MissionComplete([true, true, false][2 := true])
  {
    assert [true, true, false][..2] == [true, true];
    assert [true, true][..1] == [true];
    MissionCompleteIff([true, true, false][2 := true]);
  }

  /** The page's `.practice-section`: its steps in document order, each
      with the `step-done` class, and the check buttons inside them. */
  class PracticeSection {
    const steps: array<bool>          // 'step-done' on each .practice-step
    const hasCheck: seq<bool>         // the step has a .step-check-btn
    const checkDone: array<bool>      // 'done' on that button
    const checkText: array<string>    // that button's text
    const hasLabel: bool              // .mission-progress-label is present
    var labelText: string
    var complete: bool                // 'mission-complete' on the section

    ghost predicate Valid()
      reads this
    {
      && checkDone.Length == steps.Length
      && checkText.Length == steps.Length
      && |hasCheck| == steps.Length
      && checkDone != steps
    }

    constructor (steps: array<bool>, hasCheck: seq<bool>, checkDone: array<bool>,
                 checkText: array<string>, hasLabel: bool)
      requires checkDone.Length == steps.Length && checkText.Length == steps.Length
      requires |hasCheck| == steps.Length && checkDone != steps
      ensures Valid()
      ensures this.steps == steps && this.hasCheck == hasCheck && this.checkDone == checkDone
      ensures this.checkText == checkText && this.hasLabel == hasLabel
      ensures !complete
    {
      this.steps := steps;
      this.hasCheck := hasCheck;
      this.checkDone := checkDone;
      this.checkText := checkText;
      this.hasLabel := hasLabel;
      labelText := "";
      complete := false;
    }

    /** `updateMissionProgress(section)`: recount the steps and done steps,
        write the label, and set `mission-complete` by the rule. */
    method UpdateMissionProgress()
      requires Valid()
      modifies this`labelText, this`complete
      ensures hasLabel ==> labelText == MissionLabel(CountTrue(steps[..]), steps.Length)
      ensures !hasLabel ==> labelText == old(labelText)
      ensures complete == MissionComplete(steps[..])
    {
      var total := steps.Length;
      var done := 0;
      var j := 0;
      while j < total
        invariant 0 <= j <= total
        invariant done == CountTrue(steps[..j])
      {
        assert steps[..j + 1][..j] == steps[..j];
        if steps[j] {
          done := done + 1;
        }
        j := j + 1;
      }
      assert steps[..total] == steps[..];
      if hasLabel {
        labelText := MissionLabel(done, total);
      }
      if done == total && total > 0 {
        complete := true;
      } else {
        complete := false;
      }
    }

    /** The click listener of step `i`'s check button: flip the step, make the
        button's class and text follow it, and update the section. A step
        without a check button has no listener. */
    method ClickCheck(i: nat)
      requires Valid() && i < steps.Length
      modifies this`labelText, this`complete, steps, checkDone, checkText
      ensures !hasCheck[i] ==> steps[..] == old(steps[..]) && checkDone[..] == old(checkDone[..])
      ensures !hasCheck[i] ==> checkText[..] == old(checkText[..])
      ensures !hasCheck[i] ==> complete == old(complete) && labelText == old(labelText)
      ensures hasCheck[i] ==> steps[..] == old(steps[..])[i := !old(steps[i])]
      ensures hasCheck[i] ==> checkDone[..] == old(checkDone[..])[i := steps[i]]
      ensures hasCheck[i] ==> checkText[..] == old(checkText[..])[i := CheckText(steps[i])]
      ensures hasCheck[i] ==> complete == MissionComplete(steps[..])
      ensures hasCheck[i] && hasLabel ==> labelText == MissionLabel(CountTrue(steps[..]), steps.Length)
      ensures hasCheck[i] && !hasLabel ==> labelText == old(labelText)
    {
      if !hasCheck[i] {
        return;
      }
      steps[i] := !steps[i];
      var isDone := steps[i];
      checkText[i] := CheckText(isDone);
      checkDone[i] := isDone;
      UpdateMissionProgress();
    }
  }

  /** Two clicks on the same check button give every step back as it was. */
  method ClickCheckTwice(section: PracticeSection, i: nat)
    requires section.Valid() && i < section.steps.Length
    modifies section`labelText, section`complete, section.steps, section.checkDone, section.checkText
    ensures section.steps[..] == old(section.steps[..])
    ensures section.hasCheck[i] ==> section.complete == MissionComplete(section.steps[..])
  {
    section.ClickCheck(i);
    section.ClickCheck(i);
  }

  /** A scenario card: whether it has a `.scenario-header` and a
      `.scenario-body`, whether the body is displayed, its `open` class, and
      the toggle icon's text, if the header has an icon. */
  datatype ScenarioCard = ScenarioCard(hasHeader: bool, hasBody: bool, bodyShown: bool,
                                       open: bool, hasIcon: bool, icon: string)

  /** The card is set up only when it has both a header and a body. */
  predicate Wired(card: ScenarioCard) {
    card.hasHeader && card.hasBody
  }

  /** Setup collapses the body of a card with a header and a body; class and
      icon keep what the markup says. Any other card is skipped. */
  function ScenarioInit(card: ScenarioCard): (r: ScenarioCard)
    ensures Wired(card) ==> !r.bodyShown
    ensures !Wired(card) ==> r == card
    ensures r.hasHeader == card.hasHeader && r.hasBody == card.hasBody
    ensures r.open == card.open && r.hasIcon == card.hasIcon && r.icon == card.icon
  {
    if Wired(card) then card.(bodyShown := false) else card
  }

  /** A header click: show a hidden body or hide a shown one, set `open` to
      the new state and the icon to `▼` (open) or `▶` (closed). Without an
      icon the handler stops with an error after the first two writes. A
      card without a header or a body has no listener. */
  function ScenarioClick(card: ScenarioCard): (r: ScenarioCard)
    ensures !Wired(card) ==> r == card
    ensures r.hasHeader == card.hasHeader && r.hasBody == card.hasBody && r.hasIcon == card.hasIcon
    ensures Wired(card) ==> r.bodyShown == !card.bodyShown
    ensures Wired(card) ==> r.open == r.bodyShown
    ensures Wired(card) && r.hasIcon ==> r.icon == if r.bodyShown then "▼" else "▶"
    ensures !r.hasIcon ==> r.icon == card.icon
  {
    if !Wired(card) then card
    else
      var isOpen := card.bodyShown;
      var shown := !isOpen;
      var icon := if card.hasIcon then (if isOpen then "▶" else "▼") else card.icon;
      card.(bodyShown := shown, open := !isOpen, icon := icon)
  }

  /** Two clicks show or hide the body as before. */
  lemma ScenarioTwoClicks(card: ScenarioCard)
    ensures ScenarioClick(ScenarioClick(card)).bodyShown == card.bodyShown
  {
  }

  /** From the first click on, two more clicks restore the whole card. */
  lemma ScenarioClickCycle(card: ScenarioCard)
    ensures ScenarioClick(ScenarioClick(ScenarioClick(card))) == ScenarioClick(card)
  {
  }
}
