/**
 * The stage wizard of `ghost.ts`: three fixed stages (red, green, blue),
 * each showing five buttons and accepting a bounded number of active
 * buttons, one ordered list of every label selected so far, and a single
 * trigger that reads NEXT until the blue stage and POST from then on.
 *
 * The page's module-level variables become the fields of `Wizard`; the
 * three running counters become the array `counts`, indexed by stage
 * (0 = red, 1 = green, 2 = blue).
 */
module StageWizard {
  import opened Seqs

  const RedButtons: seq<string> := ["A", "B", "C", "D", "E"]
  const GreenButtons: seq<string> := ["1", "2", "3", "4", "5"]
  const BlueButtons: seq<string> := ["あ", "い", "う", "え", "お"]

  /** The labels shown in each stage, by stage index. */
  const StageButtons: seq<seq<string>> := [RedButtons, GreenButtons, BlueButtons]

  /** The colour name of each stage, by stage index. */
  const StageNames: seq<string> := ["red", "green", "blue"]

  /** A stage's range of active buttons: advancing needs `min <= count < max`, selecting needs `count < max`. */
  datatype Limit = Limit(min: int, max: int)

  const Limits: seq<Limit> := [Limit(1, 3), Limit(2, 4), Limit(1, 5)]

  /** The stage a colour name stands for; any other name is an unknown stage. */
  function StageIndex(color: string): (i: Option<nat>)
    ensures i.Some? ==> i.value < 3 && StageNames[i.value] == color
    ensures color in StageNames ==> i.Some?
  {
    if color == "red" then Some(0)
    else if color == "green" then Some(1)
    else if color == "blue" then Some(2)
    else None
  }

  /** `isSelectionValid`: the named stage's counter lies in `[min, max)`; an unknown stage is never valid. */
  predicate SelectionValid(stage: string, counts: seq<int>)
    requires |counts| == 3
    ensures SelectionValid(stage, counts) <==>
      || (stage == "red" && 1 <= counts[0] < 3)
      || (stage == "green" && 2 <= counts[1] < 4)
      || (stage == "blue" && 1 <= counts[2] < 5)
  {
    match StageIndex(stage)
    case None => false
    case Some(i) => Limits[i].min <= counts[i] < Limits[i].max
  }

  /** `canSelectMore`: the named stage's counter is still below `max`; an unknown stage accepts nothing. */
  predicate CanSelectMore(color: string, counts: seq<int>)
    requires |counts| == 3
    ensures CanSelectMore(color, counts) <==>
      || (color == "red" && counts[0] < 3)
      || (color == "green" && counts[1] < 4)
      || (color == "blue" && counts[2] < 5)
  {
    match StageIndex(color)
    case None => false
    case Some(i) => counts[i] < Limits[i].max
  }

  /** The text of the POST report: every selected label, in selection order, joined by ", ". */
  function Report(selected: seq<string>): (r: string)
    ensures |r| >= 18 && r[..18] == "Selected buttons: "
    ensures selected == [] ==> r == "Selected buttons: "
    ensures |selected| == 1 ==> r == "Selected buttons: " + selected[0]
  {
    "Selected buttons: " + Join(selected, ", ")
  }

  /** A deselected label no longer appears in the report: A, B, 1 with B deselected reports "A, 1". */
  lemma ReportAfterDeselect()
    ensures Report(Remove(["A", "B", "1"], "B")) == "Selected buttons: A, 1"
  {
    var s: seq<string> := ["A", "B", "1"];
    assert s[..2] == ["A", "B"] && s[..2][..1] == ["A"] && s[..2][..1][..0] == [];
    assert Remove(s[..2][..1], "B") == ["A"];
    assert Remove(s[..2], "B") == ["A"];
    assert Remove(s, "B") == ["A", "1"];
    assert ["A", "1"][..1] == ["A"];
  }

  /**
   * A stage filled up to its `max` can neither take another selection nor
   * advance: the cap on selecting and the bound on advancing are the same
   * number, so the last selection the cap allows makes NEXT refuse.
   */
  lemma FullStageIsStuck(i: nat, counts: seq<int>)
    requires i < 3 && |counts| == 3 && counts[i] == Limits[i].max
    ensures !CanSelectMore(StageNames[i], counts)
    ensures !SelectionValid(StageNames[i], counts)
  {
  }

  /** The wizard's state as a value: the fields of `Wizard`, with the counters read out of their array. */
  datatype Snapshot = Snapshot(
    stage: string,
    counts: seq<int>,
    displayed: seq<string>,
    active: set<string>,
    selected: seq<string>,
    triggerText: string,
    postHandlers: nat)

  /** No label belongs to two stages. */
  ghost predicate Disjoint(buttons: seq<seq<string>>) {
    forall j, k, x :: 0 <= j < |buttons| && 0 <= k < |buttons| && j != k && x in buttons[j] ==> x !in buttons[k]
  }

  lemma StageButtonsDisjoint()
    ensures Disjoint(StageButtons)
  {
  }

  /**
   * The wizard's invariant, for any three label lists `buttons`. The
   * displayed stage is a known one and shows its own labels; its counter
   * equals its number of active buttons; a displayed label is in
   * `selected` exactly when it is active; `selected` has no duplicates;
   * every counter equals the number of that stage's labels in `selected`,
   * lies within `0..max`, and is 0 for stages not reached yet; the trigger
   * reads POST, with one report listener, exactly in the last stage.
   */
  ghost predicate Inv(s: Snapshot, buttons: seq<seq<string>>) {
    && |buttons| == 3
    && |s.counts| == 3
    && StageIndex(s.stage).Some?
    && var i := StageIndex(s.stage).value;
    && s.displayed == buttons[i]
    && (forall x :: x in s.active ==> x in s.displayed)
    && |s.active| == s.counts[i]
    && (forall x :: x in s.displayed ==> (x in s.active <==> x in s.selected))
    && NoDup(s.selected)
    && (forall j :: 0 <= j < 3 ==> s.counts[j] == Count(s.selected, buttons[j]))
    && (forall j :: 0 <= j < 3 ==> 0 <= s.counts[j] <= Limits[j].max)
    && (forall j :: i < j < 3 ==> s.counts[j] == 0)
    && s.triggerText == (if i == 2 then "POST" else "NEXT")
    && s.postHandlers == (if i == 2 then 1 else 0)
  }

  /** Deactivating an active button, uncounting it and dropping its label keeps the invariant. */
  lemma ToggleOffKeepsInv(s: Snapshot, b: string, buttons: seq<seq<string>>)
    requires Inv(s, buttons) && Disjoint(buttons) && b in s.active
    ensures var i := StageIndex(s.stage).value;
      Inv(s.(active := s.active - {b}, counts := s.counts[i := s.counts[i] - 1], selected := Remove(s.selected, b)), buttons)
  {
    var i := StageIndex(s.stage).value;
    RemoveNoDup(s.selected, b);
    CountsAfterRemove(s.selected, b, i, buttons);
  }

  /** Activating an inactive displayed button below the cap, counting it and appending its label keeps the invariant. */
  lemma ToggleOnKeepsInv(s: Snapshot, b: string, buttons: seq<seq<string>>)
    requires Inv(s, buttons) && Disjoint(buttons) && b in s.displayed && b !in s.active
    requires CanSelectMore(s.stage, s.counts)
    ensures var i := StageIndex(s.stage).value;
      Inv(s.(active := s.active + {b}, counts := s.counts[i := s.counts[i] + 1], selected := s.selected + [b]), buttons)
  {
    var i := StageIndex(s.stage).value;
    var t := s.(active := s.active + {b}, counts := s.counts[i := s.counts[i] + 1], selected := s.selected + [b]);
    assert b !in s.selected;
    NoDupAppend(s.selected, b);
    CountsAfterAppend(s.selected, b, i, buttons);
    assert |t.active| == t.counts[i];
    assert forall j :: 0 <= j < 3 ==> t.counts[j] == Count(t.selected, buttons[j]);
  }

  /**
   * Moving from red to green, or from green to blue, showing the new
   * stage's labels with none active, keeps the invariant, with the trigger
   * turned to POST and one report listener bound on entering blue.
   */
  lemma AdvanceKeepsInv(s: Snapshot, buttons: seq<seq<string>>)
    requires Inv(s, buttons) && StageIndex(s.stage).value < 2
    ensures var k := StageIndex(s.stage).value + 1;
      Inv(s.(stage := StageNames[k], displayed := buttons[k], active := {},
             triggerText := if k == 2 then "POST" else "NEXT",
             postHandlers := if k == 2 then 1 else 0), buttons)
  {
    var k := StageIndex(s.stage).value + 1;
    CountZero(s.selected, buttons[k]);
  }

  /** Appending a label of stage `i` raises stage `i`'s count by one and leaves the others alone. */
  lemma CountsAfterAppend(s: seq<string>, b: string, i: nat, buttons: seq<seq<string>>)
    requires i < |buttons| && b in buttons[i] && Disjoint(buttons)
    ensures forall j :: 0 <= j < |buttons| ==>
      Count(s + [b], buttons[j]) == Count(s, buttons[j]) + (if j == i then 1 else 0)
  {
    forall j | 0 <= j < |buttons|
      ensures Count(s + [b], buttons[j]) == Count(s, buttons[j]) + (if j == i then 1 else 0)
    {
      CountAppend(s, b, buttons[j]);
    }
  }

  /** Removing a selected label of stage `i` lowers stage `i`'s count by one and leaves the others alone. */
  lemma CountsAfterRemove(s: seq<string>, b: string, i: nat, buttons: seq<seq<string>>)
    requires i < |buttons| && b in buttons[i] && b in s && NoDup(s) && Disjoint(buttons)
    ensures forall j :: 0 <= j < |buttons| ==>
      Count(Remove(s, b), buttons[j]) == Count(s, buttons[j]) - (if j == i then 1 else 0)
  {
    forall j | 0 <= j < |buttons|
      ensures Count(Remove(s, b), buttons[j]) == Count(s, buttons[j]) - (if j == i then 1 else 0)
    {
      CountRemove(s, b, buttons[j]);
    }
  }

  class Wizard {
    /** `currentStage`: the colour name of the displayed stage. */
    var stage: string
    /** The running counters `selectedRedButtons`, `selectedGreenButtons`, `selectedBlueButtons`. */
    const counts: array<int>
    /** The labels of the buttons in the container, in display order. */
    var displayed: seq<string>
    /** The labels of the displayed buttons marked active. */
    var active: set<string>
    /** `selectedButtons`: every selected label across stages, in selection order. */
    var selected: seq<string>
    /** The trigger's text. */
    var triggerText: string
    /** How many POST report listeners are bound to the trigger. */
    var postHandlers: nat

    ghost function State(): Snapshot
      reads this, counts
    {
      Snapshot(stage, counts[..], displayed, active, selected, triggerText, postHandlers)
    }

    ghost predicate Valid()
      reads this, counts
    {
      Inv(State(), StageButtons)
    }

    /** The index of the displayed stage. */
    ghost function Current(): nat
      reads this
      requires StageIndex(stage).Some?
    {
      StageIndex(stage).value
    }

    /** `isSelectionValid` on the wizard's own stage and counters. */
    predicate IsSelectionValid()
      reads this, counts
      requires counts.Length == 3
      ensures Valid() ==> (IsSelectionValid() <==> Limits[Current()].min <= |active| < Limits[Current()].max)
    {
      SelectionValid(stage, counts[..])
    }

    /** `canSelectMore` for the displayed stage, the colour its buttons carry. */
    predicate CanSelectMoreHere()
      reads this, counts
      requires counts.Length == 3
      ensures Valid() ==> (CanSelectMoreHere() <==> |active| < Limits[Current()].max)
    {
      CanSelectMore(stage, counts[..])
    }

    /** Page load: the red buttons are shown, nothing is selected, the trigger reads NEXT. */
    constructor ()
      ensures Valid() && fresh(counts)
      ensures stage == "red" && counts[..] == [0, 0, 0]
      ensures displayed == RedButtons && active == {} && selected == []
      ensures triggerText == "NEXT" && postHandlers == 0
    {
      stage := "red";
      counts := new int[3](_ => 0);
      displayed := RedButtons;
      active := {};
      selected := [];
      triggerText := "NEXT";
      postHandlers := 0;
    }

    /**
     * A click on the displayed button labelled `b` (`toggleButton`). An
     * active button is deactivated, its stage counter decremented and its
     * label removed from `selected`. An inactive one is activated, counted
     * and appended to `selected` only while `CanSelectMoreHere()` holds;
     * otherwise nothing changes. Other stages' counters never change.
     */
    method Toggle(b: string)
      requires Valid() && b in displayed
      modifies this, counts
      ensures Valid()
      ensures stage == old(stage) && displayed == old(displayed)
      ensures triggerText == old(triggerText) && postHandlers == old(postHandlers)
      ensures forall j :: 0 <= j < 3 && j != Current() ==> counts[j] == old(counts[j])
      ensures old(b in active) ==>
        && active == old(active) - {b}
        && selected == Remove(old(selected), b)
        && counts[Current()] == old(counts[Current()]) - 1
      ensures !old(b in active) && old(CanSelectMoreHere()) ==>
        && active == old(active) + {b}
        && selected == old(selected) + [b]
        && counts[Current()] == old(counts[Current()]) + 1
      ensures !old(b in active) && !old(CanSelectMoreHere()) ==>
        active == old(active) && selected == old(selected) && counts[Current()] == old(counts[Current()])
    {
      if b in active {
        Deselect(b);
      } else if CanSelectMore(stage, counts[..]) {
        Select(b);
      }
    }

    /** The deselecting branch of `toggleButton`; `decBtn` is the counter update. */
    method Deselect(b: string)
      requires Valid() && b in active
      modifies this, counts
      ensures Valid()
      ensures stage == old(stage) && displayed == old(displayed)
      ensures triggerText == old(triggerText) && postHandlers == old(postHandlers)
      ensures active == old(active) - {b}
      ensures selected == Remove(old(selected), b)
      ensures counts[Current()] == old(counts[Current()]) - 1
      ensures forall j :: 0 <= j < 3 && j != Current() ==> counts[j] == old(counts[j])
    {
      ghost var s := State();
      var i := StageIndex(stage).value;
      StageButtonsDisjoint();
      ToggleOffKeepsInv(s, b, StageButtons);
      var rest := Remove(selected, b);
      active, selected := active - {b}, rest;
      counts[i] := counts[i] - 1;
      assert counts[..] == s.counts[i := s.counts[i] - 1];
      assert State() == s.(active := s.active - {b}, counts := s.counts[i := s.counts[i] - 1], selected := Remove(s.selected, b));
    }

    /** The selecting branch of `toggleButton`, taken only below the stage's cap; `incBtn` is the counter update. */
    method Select(b: string)
      requires Valid() && b in displayed && b !in active && CanSelectMore(stage, counts[..])
      modifies this, counts
      ensures Valid()
      ensures stage == old(stage) && displayed == old(displayed)
      ensures triggerText == old(triggerText) && postHandlers == old(postHandlers)
      ensures active == old(active) + {b}
      ensures selected == old(selected) + [b]
      ensures counts[Current()] == old(counts[Current()]) + 1
      ensures forall j :: 0 <= j < 3 && j != Current() ==> counts[j] == old(counts[j])
    {
      ghost var s := State();
      var i := StageIndex(stage).value;
      StageButtonsDisjoint();
      ToggleOnKeepsInv(s, b, StageButtons);
      active, selected := active + {b}, selected + [b];
      counts[i] := counts[i] + 1;
      assert counts[..] == s.counts[i := s.counts[i] + 1];
      assert State() == s.(active := s.active + {b}, counts := s.counts[i := s.counts[i] + 1], selected := s.selected + [b]);
    }

    /**
     * The NEXT listener, the anonymous arrow function bound to the trigger
     * (ghost.ts:85-103), which first checks `isSelectionValid`: when the selection is valid it moves red to green or green
     * to blue, showing the next stage's buttons with none active; on
     * entering blue the trigger is relabelled POST and one report listener
     * is bound. In blue, or when the selection is invalid, it changes
     * nothing. Counters and `selected` are never changed.
     */
    method Next()
      requires Valid()
      modifies this
      ensures Valid() && selected == old(selected)
      ensures old(IsSelectionValid()) && old(stage) == "red" ==>
        && stage == "green" && displayed == GreenButtons && active == {}
        && triggerText == "NEXT" && postHandlers == 0
      ensures old(IsSelectionValid()) && old(stage) == "green" ==>
        && stage == "blue" && displayed == BlueButtons && active == {}
        && triggerText == "POST" && postHandlers == 1
      ensures !old(IsSelectionValid()) || old(stage) == "blue" ==>
        && stage == old(stage) && displayed == old(displayed) && active == old(active)
        && triggerText == old(triggerText) && postHandlers == old(postHandlers)
    {
      ghost var s := State();
      if SelectionValid(stage, counts[..]) {
        if stage == "red" {
          AdvanceKeepsInv(s, StageButtons);
          stage := "green";
          displayed, active := GreenButtons, {};
          assert State() == s.(stage := "green", displayed := GreenButtons, active := {});
        } else if stage == "green" {
          AdvanceKeepsInv(s, StageButtons);
          stage := "blue";
          displayed, active := BlueButtons, {};
          triggerText := "POST";
          postHandlers := postHandlers + 1;
          assert State() == s.(stage := "blue", displayed := BlueButtons, active := {}, triggerText := "POST", postHandlers := 1);
        }
      }
    }

    /**
     * A click on the trigger. The NEXT listener runs first (`Next`); then
     * each report listener bound before the click reports the current
     * `selected` list (one bound during this click does not fire yet), so
     * a report comes out exactly when the click started in blue.
     */
    method ClickTrigger() returns (alerts: seq<string>)
      requires Valid()
      modifies this
      ensures Valid() && selected == old(selected)
      ensures alerts == if old(stage) == "blue" then [Report(selected)] else []
      ensures old(IsSelectionValid()) && old(stage) == "red" ==>
        && stage == "green" && displayed == GreenButtons && active == {}
        && triggerText == "NEXT" && postHandlers == 0
      ensures old(IsSelectionValid()) && old(stage) == "green" ==>
        && stage == "blue" && displayed == BlueButtons && active == {}
        && triggerText == "POST" && postHandlers == 1
      ensures !old(IsSelectionValid()) || old(stage) == "blue" ==>
        && stage == old(stage) && displayed == old(displayed) && active == old(active)
        && triggerText == old(triggerText) && postHandlers == old(postHandlers)
    {
      var bound := postHandlers;
      Next();
      var report := Report(selected);
      alerts := seq(bound, _ => report);
      assert bound == 1 ==> alerts == [report];
    }
  }
}
