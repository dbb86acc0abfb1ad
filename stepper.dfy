/** The stage stepper of the opportunity details page. The view mode draws one
    step per configured stage from the opportunity's `stageHistory`
    (`C:<stage>` completed, `X:<stage>` skipped, comma-separated); the edit
    mode lets the user cycle a step's status by clicking its circle and mark a
    step current by clicking its name; saving writes the history back. A step
    of the page is a `Step` value; the steps live in an array the handlers
    update in place. */
module Stepper {
  import opened Common
  import opened Text

  const Pending := "pending"
  const Completed := "completed"
  const Skipped := "skipped"
  const CheckMark := "✓"
  const CrossMark := "✕"

  /** A configured stage (`CRM_APP.systemConfig['機會階段']` item). */
  datatype Stage = Stage(value: string, note: string)

  /** A `.stage-step` element: its `data-stage-id`, its `data-status` (`""`
      until edit mode sets it), its `completed`, `skipped` and `current`
      classes, the text of its circle and of its name. */
  datatype Step = Step(
    stageId: string, status: string, completed: bool, skipped: bool, current: bool,
    icon: string, name: string)

  /** What the circle of the pending step at `index` shows: its 1-based position. */
  function PositionIcon(index: nat): string
  {
    NatToString(index + 1)
  }

  // ------------------------------------------------------------ the history

  /** The history item a step contributes on save: `C:id`, `X:id`, or none. */
  function HistoryItem(step: Step): Option<string>
  {
    if step.status == Completed then Some("C:" + step.stageId)
    else if step.status == Skipped then Some("X:" + step.stageId)
    else None
  }

  /** The `historyItems` of `_saveChanges`, in step order: `C:id` for each
      completed step, `X:id` for each skipped one, nothing for the others. */
  function HistoryItems(steps: seq<Step>): (items: seq<string>)
    ensures |items| <= |steps|
  {
    if steps == [] then []
    else
      var item := HistoryItem(steps[|steps| - 1]);
      HistoryItems(steps[..|steps| - 1]) + (if item.Some? then [item.value] else [])
  }

  /** Every item is `C:id` of a completed step or `X:id` of a skipped one,
      and every completed or skipped step contributes its item. */
  lemma {:induction false} HistoryItemsMeaning(steps: seq<Step>)
    ensures forall k :: 0 <= k < |HistoryItems(steps)| ==>
              exists i :: 0 <= i < |steps| &&
                ((steps[i].status == Completed && HistoryItems(steps)[k] == "C:" + steps[i].stageId)
                 || (steps[i].status == Skipped && HistoryItems(steps)[k] == "X:" + steps[i].stageId))
    ensures forall i :: 0 <= i < |steps| && steps[i].status == Completed ==> "C:" + steps[i].stageId in HistoryItems(steps)
    ensures forall i :: 0 <= i < |steps| && steps[i].status == Skipped ==> "X:" + steps[i].stageId in HistoryItems(steps)
  {
    if steps != [] {
      var prefix := steps[..|steps| - 1];
      var last := steps[|steps| - 1];
      HistoryItemsMeaning(prefix);
      var before := HistoryItems(prefix);
      var items := HistoryItems(steps);
      var added := if HistoryItem(last).Some? then [HistoryItem(last).value] else [];
      assert items == before + added;
      forall k | 0 <= k < |items|
        ensures exists i :: 0 <= i < |steps| &&
                  ((steps[i].status == Completed && items[k] == "C:" + steps[i].stageId)
                   || (steps[i].status == Skipped && items[k] == "X:" + steps[i].stageId))
      {
        if k < |before| {
          var i :| 0 <= i < |prefix| &&
                   ((prefix[i].status == Completed && before[k] == "C:" + prefix[i].stageId)
                    || (prefix[i].status == Skipped && before[k] == "X:" + prefix[i].stageId));
          assert steps[i] == prefix[i];
        } else {
          assert steps[|steps| - 1] == last;
        }
      }
      forall i | 0 <= i < |steps|
        ensures steps[i].status == Completed ==> "C:" + steps[i].stageId in items
        ensures steps[i].status == Skipped ==> "X:" + steps[i].stageId in items
      {
        if i < |prefix| {
          assert steps[i] == prefix[i];
        } else {
          assert steps[i] == last;
        }
      }
    } else {
      assert HistoryItems(steps) == [];
    }
  }

  /** The items keep the steps' order: the items of two runs of steps are
      those of the first run followed by those of the second. */
  lemma {:induction false} HistoryItemsAppend(a: seq<Step>, b: seq<Step>)
    ensures HistoryItems(a + b) == HistoryItems(a) + HistoryItems(b)
    decreases |b|
  {
    if b == [] {
      assert a + b == a;
    } else {
      var b' := b[..|b| - 1];
      assert (a + b)[..|a + b| - 1] == a + b';
      assert (a + b)[|a + b| - 1] == b[|b| - 1];
      HistoryItemsAppend(a, b');
    }
  }

  /** `historyItems.join(',')`. */
  function SerializeHistory(steps: seq<Step>): string
  {
    Join(HistoryItems(steps), ",")
  }

  /** The saved history is empty exactly when no step is completed or skipped. */
  lemma SerializeEmptyIffUnmarked(steps: seq<Step>)
    ensures SerializeHistory(steps) == ""
            <==> forall i :: 0 <= i < |steps| ==> steps[i].status != Completed && steps[i].status != Skipped
  {
    HistoryItemsMeaning(steps);
    var items := HistoryItems(steps);
    if items != [] {
      var i :| 0 <= i < |steps| &&
               ((steps[i].status == Completed && items[0] == "C:" + steps[i].stageId)
                || (steps[i].status == Skipped && items[0] == "X:" + steps[i].stageId));
      assert |items| == 1 || Join(items, ",") == items[0] + "," + Join(items[1..], ",");
    }
  }

  /** `const [status, stageId] = item.split(':')`: the stage id (`None` for
      `undefined` when there is no `:`) and the status code. */
  function HistoryEntry(item: string): (Option<string>, string)
  {
    var parts := Split(item, ":");
    (if |parts| >= 2 then Some(parts[1]) else None, parts[0])
  }

  function HistoryEntries(items: seq<string>): (r: seq<(Option<string>, string)>)
    ensures |r| == |items|
  {
    seq(|items|, k requires 0 <= k < |items| => HistoryEntry(items[k]))
  }

  /** The `stageStatusMap` of `_renderViewMode`: empty for an empty history,
      otherwise each stage id mapped to the code of its last item. */
  function ParseHistory(history: string): (r: map<Option<string>, string>)
    ensures history == "" ==> r == map[]
  {
    if history == "" then map[] else MapFromEntries(HistoryEntries(Split(history, ",")))
  }

  /** The stages in the map are exactly those the history's items name
      (`None` for an item without `:`). */
  lemma ParseHistoryKeys(history: string)
    requires history != ""
    ensures ParseHistory(history).Keys == set i | 0 <= i < |Split(history, ",")| :: HistoryEntry(Split(history, ",")[i]).0
  {
    var items := Split(history, ",");
    var entries := HistoryEntries(items);
    assert forall i :: 0 <= i < |items| ==> entries[i] == HistoryEntry(items[i]);
    assert (set i | 0 <= i < |entries| :: entries[i].0)
           == (set i | 0 <= i < |items| :: HistoryEntry(items[i]).0);
  }

  /** The status a stage is drawn with: `C` completed, `X` skipped, anything
      else or nothing pending. */
  function ViewStatus(statusMap: map<Option<string>, string>, stageId: string): (s: string)
    ensures s == Completed <==> Get(statusMap, Some(stageId)) == Some("C")
    ensures s == Skipped <==> Get(statusMap, Some(stageId)) == Some("X")
    ensures s == Pending <==> Get(statusMap, Some(stageId)) !in {Some("C"), Some("X")}
  {
    var code := Get(statusMap, Some(stageId));
    if code == Some("C") then Completed else if code == Some("X") then Skipped else Pending
  }

  /** The loop of `_renderViewMode` that fills `stageStatusMap`. */
  method StageStatusMap(history: string) returns (statusMap: map<Option<string>, string>)
    ensures statusMap == ParseHistory(history)
  {
    statusMap := map[];
    if history != "" {
      var items := Split(history, ",");
      for i := 0 to |items|
        invariant statusMap == MapFromEntries(HistoryEntries(items[..i]))
      {
        var entry := HistoryEntry(items[i]);
        assert HistoryEntries(items[..i + 1])[..i] == HistoryEntries(items[..i]);
        statusMap := statusMap[entry.0 := entry.1];
      }
      assert items[..|items|] == items;
    }
  }

  /** A later item for the same stage overrides an earlier one. */
  lemma ParseHistoryLastWins(history: string, k: int)
    requires history != "" && 0 <= k < |Split(history, ",")|
    requires forall j :: k < j < |Split(history, ",")| ==>
               HistoryEntry(Split(history, ",")[j]).0 != HistoryEntry(Split(history, ",")[k]).0
    ensures Get(ParseHistory(history), HistoryEntry(Split(history, ",")[k]).0)
            == Some(HistoryEntry(Split(history, ",")[k]).1)
  {
    LastEntryWins(HistoryEntries(Split(history, ",")), k);
  }

  // -------------------------------------------------------------- view mode

  /** The step `_renderViewMode` draws for the stage at `index`. */
  function ViewStep(stage: Stage, index: nat, statusMap: map<Option<string>, string>, currentStage: string): (step: Step)
    ensures step.completed <==> ViewStatus(statusMap, stage.value) == Completed
    ensures step.skipped <==> ViewStatus(statusMap, stage.value) == Skipped
    ensures step.current <==> stage.value == currentStage
  {
    var status := ViewStatus(statusMap, stage.value);
    Step(stage.value, "", status == Completed, status == Skipped, stage.value == currentStage,
         if status == Completed then CheckMark else if status == Skipped then CrossMark else PositionIcon(index),
         if stage.note != "" then stage.note else stage.value)
  }

  /** The steps `_renderViewMode` draws, one per configured stage, in order. */
  function ViewSteps(stages: seq<Stage>, statusMap: map<Option<string>, string>, currentStage: string): (steps: seq<Step>)
    ensures |steps| == |stages|
    ensures forall i :: 0 <= i < |stages| ==> steps[i] == ViewStep(stages[i], i, statusMap, currentStage)
  {
    seq(|stages|, i requires 0 <= i < |stages| => ViewStep(stages[i], i, statusMap, currentStage))
  }

  // -------------------------------------------------------------- edit mode

  /** The status edit mode derives from a step's classes: `skipped` wins over
      `completed`. */
  function EditStatus(step: Step): (s: string)
    ensures s == Skipped <==> step.skipped
    ensures s == Completed <==> step.completed && !step.skipped
    ensures s == Pending <==> !step.completed && !step.skipped
  {
    if step.skipped then Skipped else if step.completed then Completed else Pending
  }

  /** A step whose status, classes and circle agree, as at position `index`. */
  predicate Consistent(step: Step, index: nat)
  {
    (step.status == Pending && !step.completed && !step.skipped && step.icon == PositionIcon(index))
    || (step.status == Completed && step.completed && !step.skipped && step.icon == CheckMark)
    || (step.status == Skipped && !step.completed && step.skipped && step.icon == CrossMark)
  }

  /** `_handleCircleClick` on the step at `index`; a status outside the three
      is left as it is. */
  function Clicked(step: Step, index: nat): (r: Step)
    ensures r.stageId == step.stageId && r.current == step.current && r.name == step.name
    ensures step.status == Pending ==> r.status == Completed && r.icon == CheckMark
    ensures step.status == Completed ==> r.status == Skipped && r.icon == CrossMark
    ensures step.status == Skipped ==> r.status == Pending && r.icon == PositionIcon(index)
    ensures step.status !in {Pending, Completed, Skipped} ==> r == step
  {
    if step.status == Pending then step.(status := Completed, completed := true, skipped := false, icon := CheckMark)
    else if step.status == Completed then step.(status := Skipped, completed := false, skipped := true, icon := CrossMark)
    else if step.status == Skipped then step.(status := Pending, skipped := false, icon := PositionIcon(index))
    else step
  }

  /** A click keeps status, classes and circle in agreement. */
  lemma ClickKeepsConsistent(step: Step, index: nat)
    requires Consistent(step, index)
    ensures Consistent(Clicked(step, index), index)
  {
  }

  /** Three clicks bring a step back to where it was. */
  lemma ThreeClicksRestore(step: Step, index: nat)
    requires Consistent(step, index)
    ensures Clicked(Clicked(Clicked(step, index), index), index) == step
  {
  }

  /** A drawn step, once edit mode has derived its status, is consistent, and
      its status is the one its history gave it. */
  lemma EditModeOfViewStep(stage: Stage, index: nat, statusMap: map<Option<string>, string>, currentStage: string)
    ensures var step := ViewStep(stage, index, statusMap, currentStage);
            EditStatus(step) == ViewStatus(statusMap, stage.value)
            && Consistent(step.(status := EditStatus(step)), index)
  {
  }

  /** `currentStep ? currentStep.dataset.stageId : _opportunityInfo.currentStage`,
      where `currentStep` is the first step marked current. */
  function CurrentStageOf(steps: seq<Step>, fallback: string): string
  {
    if steps == [] then fallback
    else if steps[0].current then steps[0].stageId
    else CurrentStageOf(steps[1..], fallback)
  }

  /** The saved stage is that of the first step marked current, or the
      existing stage when no step is marked. */
  lemma {:induction false} CurrentStageFirstMarked(steps: seq<Step>, fallback: string)
    ensures (forall i :: 0 <= i < |steps| ==> !steps[i].current) ==> CurrentStageOf(steps, fallback) == fallback
    ensures (exists i :: 0 <= i < |steps| && steps[i].current) ==>
              exists i :: 0 <= i < |steps| && steps[i].current && CurrentStageOf(steps, fallback) == steps[i].stageId
                          && forall j :: 0 <= j < i ==> !steps[j].current
  {
    if steps != [] && !steps[0].current {
      CurrentStageFirstMarked(steps[1..], fallback);
      assert forall i :: 1 <= i < |steps| ==> steps[i] == steps[1..][i - 1];
      if exists i :: 0 <= i < |steps| && steps[i].current {
        var i :| 0 <= i < |steps| && steps[i].current;
        assert steps[1..][i - 1].current;
        var i' :| 0 <= i' < |steps[1..]| && steps[1..][i'].current
                  && CurrentStageOf(steps[1..], fallback) == steps[1..][i'].stageId
                  && forall j :: 0 <= j < i' ==> !steps[1..][j].current;
        assert steps[i' + 1] == steps[1..][i'];
      }
    }
  }

  // ------------------------------------------------------------ round trip

  /** The status codes each step puts into the history, as map entries. */
  function StepEntries(steps: seq<Step>): seq<(Option<string>, string)>
  {
    if steps == [] then []
    else
      var last := steps[|steps| - 1];
      StepEntries(steps[..|steps| - 1])
      + (if last.status == Completed then [(Some(last.stageId), "C")]
         else if last.status == Skipped then [(Some(last.stageId), "X")]
         else [])
  }

  /** A stage id the history can carry: free of the two separators. */
  predicate PlainId(id: string)
  {
    ',' !in id && ':' !in id
  }

  /** Splitting a `C:id`/`X:id` item on `:` gives back the code and the id. */
  lemma HistoryEntryOfItem(code: string, id: string)
    requires code == "C" || code == "X"
    requires ':' !in id
    ensures HistoryEntry(code + ":" + id) == (Some(id), code)
  {
    assert Join([code, id], ":") == code + ":" + id;
    SplitJoin([code, id], ':');
  }

  /** The item a step contributes reads back as the entry it contributes. */
  lemma StepItemEntry(step: Step)
    requires PlainId(step.stageId)
    ensures HistoryEntries(if HistoryItem(step).Some? then [HistoryItem(step).value] else [])
            == if step.status == Completed then [(Some(step.stageId), "C")]
               else if step.status == Skipped then [(Some(step.stageId), "X")]
               else []
  {
    if step.status == Completed {
      HistoryEntryOfItem("C", step.stageId);
      assert "C:" + step.stageId == "C" + ":" + step.stageId;
    } else if step.status == Skipped {
      HistoryEntryOfItem("X", step.stageId);
      assert "X:" + step.stageId == "X" + ":" + step.stageId;
    }
  }

  lemma HistoryEntriesAppend(a: seq<string>, b: seq<string>)
    ensures HistoryEntries(a + b) == HistoryEntries(a) + HistoryEntries(b)
  {
  }

  /** The history items read back as exactly the steps' entries. */
  lemma {:induction false} EntriesOfItems(steps: seq<Step>)
    requires forall i :: 0 <= i < |steps| ==> PlainId(steps[i].stageId)
    ensures HistoryEntries(HistoryItems(steps)) == StepEntries(steps)
  {
    if steps != [] {
      var prefix := steps[..|steps| - 1];
      var last := steps[|steps| - 1];
      EntriesOfItems(prefix);
      StepItemEntry(last);
      HistoryEntriesAppend(HistoryItems(prefix), if HistoryItem(last).Some? then [HistoryItem(last).value] else []);
    }
  }

  /** No history item contains `,` when no stage id does. */
  lemma {:induction false} ItemsFreeOfComma(steps: seq<Step>)
    requires forall i :: 0 <= i < |steps| ==> PlainId(steps[i].stageId)
    ensures forall k :: 0 <= k < |HistoryItems(steps)| ==> ',' !in HistoryItems(steps)[k]
  {
    if steps != [] {
      var prefix := steps[..|steps| - 1];
      ItemsFreeOfComma(prefix);
    }
  }

  /** Looking a step up in the map of the entries of distinct steps gives
      the code of its own status, and nothing for a pending one. */
  lemma {:induction false} StepEntriesLookup(steps: seq<Step>, i: int)
    requires 0 <= i < |steps|
    requires forall a, b :: 0 <= a < b < |steps| ==> steps[a].stageId != steps[b].stageId
    ensures Get(MapFromEntries(StepEntries(steps)), Some(steps[i].stageId))
            == if steps[i].status == Completed then Some("C")
               else if steps[i].status == Skipped then Some("X")
               else None
  {
    var prefix := steps[..|steps| - 1];
    var last := steps[|steps| - 1];
    var entries := StepEntries(steps);
    var before := StepEntries(prefix);
    if last.status == Completed || last.status == Skipped {
      assert entries[..|entries| - 1] == before;
    } else {
      assert entries == before;
    }
    if i < |steps| - 1 {
      assert prefix[i] == steps[i];
      StepEntriesLookup(prefix, i);
    } else if last.status != Completed && last.status != Skipped {
      if Some(last.stageId) in MapFromEntries(before) {
        var k :| 0 <= k < |before| && before[k].0 == Some(last.stageId);
        EntryOfSomeStep(prefix, k);
        assert false;
      }
    }
  }

  /** Every entry comes from one of the steps. */
  lemma {:induction false} EntryOfSomeStep(steps: seq<Step>, k: int)
    requires 0 <= k < |StepEntries(steps)|
    ensures exists a :: 0 <= a < |steps| && StepEntries(steps)[k].0 == Some(steps[a].stageId)
  {
    var prefix := steps[..|steps| - 1];
    var before := StepEntries(prefix);
    if k < |before| {
      assert StepEntries(steps)[k] == before[k];
      EntryOfSomeStep(prefix, k);
      var a :| 0 <= a < |prefix| && before[k].0 == Some(prefix[a].stageId);
      assert prefix[a] == steps[a];
    } else {
      assert StepEntries(steps)[k].0 == Some(steps[|steps| - 1].stageId);
    }
  }

  /** Saving and drawing again restores every step's status, provided the
      stage ids are distinct and contain neither `,` nor `:`. */
  lemma SaveThenViewRestores(steps: seq<Step>, i: int)
    requires 0 <= i < |steps|
    requires forall a :: 0 <= a < |steps| ==> steps[a].status in {Pending, Completed, Skipped}
    requires forall a :: 0 <= a < |steps| ==> PlainId(steps[a].stageId)
    requires forall a, b :: 0 <= a < b < |steps| ==> steps[a].stageId != steps[b].stageId
    ensures ViewStatus(ParseHistory(SerializeHistory(steps)), steps[i].stageId) == steps[i].status
  {
    EntriesOfItems(steps);
    ItemsFreeOfComma(steps);
    StepEntriesLookup(steps, i);
    var items := HistoryItems(steps);
    if items == [] {
      assert StepEntries(steps) == [];
    } else {
      SplitJoin(items, ',');
      assert Split(SerializeHistory(steps), ",") == items;
      HistoryItemsMeaning(steps);
      SerializeEmptyIffUnmarked(steps);
    }
  }

  // ------------------------------------------------------------ the widget

  /** The stepper widget: the opportunity's saved stage and history, and
      the drawn steps. */
  class StepperWidget {
    var rowIndex: string
    var currentStage: string
    var stageHistory: string
    var steps: array<Step>

    /** `init(opportunityInfo)` followed by `_renderViewMode`. */
    constructor(stages: seq<Stage>, rowIndex: string, currentStage: string, stageHistory: string)
      ensures this.rowIndex == rowIndex && this.currentStage == currentStage && this.stageHistory == stageHistory
      ensures steps[..] == ViewSteps(stages, ParseHistory(stageHistory), currentStage)
    {
      this.rowIndex := rowIndex;
      this.currentStage := currentStage;
      this.stageHistory := stageHistory;
      var statusMap := StageStatusMap(stageHistory);
      var drawn := ViewSteps(stages, statusMap, currentStage);
      steps := new Step[|drawn|](i requires 0 <= i < |drawn| => drawn[i]);
    }

    /** `_renderViewMode` again (the cancel button): the steps are drawn
        afresh from the saved history. */
    method RenderViewMode(stages: seq<Stage>)
      modifies this
      ensures rowIndex == old(rowIndex) && currentStage == old(currentStage) && stageHistory == old(stageHistory)
      ensures fresh(steps)
      ensures steps[..] == ViewSteps(stages, ParseHistory(stageHistory), currentStage)
    {
      var statusMap := StageStatusMap(stageHistory);
      var drawn := ViewSteps(stages, statusMap, currentStage);
      steps := new Step[|drawn|](i requires 0 <= i < |drawn| => drawn[i]);
    }

    /** `_renderEditMode`: each step's `data-status` is derived from its
        classes. */
    method RenderEditMode()
      modifies steps
      ensures forall i :: 0 <= i < steps.Length ==> steps[i] == old(steps[i]).(status := EditStatus(old(steps[i])))
    {
      for i := 0 to steps.Length
        invariant forall j :: 0 <= j < i ==> steps[j] == old(steps[j]).(status := EditStatus(old(steps[j])))
        invariant forall j :: i <= j < steps.Length ==> steps[j] == old(steps[j])
      {
        steps[i] := steps[i].(status := EditStatus(steps[i]));
      }
    }

    /** `_handleCircleClick` on the step at `index`. */
    method CircleClick(index: int)
      requires 0 <= index < steps.Length
      modifies steps
      ensures steps[index] == Clicked(old(steps[index]), index)
      ensures forall j :: 0 <= j < steps.Length && j != index ==> steps[j] == old(steps[j])
    {
      steps[index] := Clicked(steps[index], index);
    }

    /** `_handleNameClick` on the step at `index`: every step loses the
        `current` class, then the clicked one gets it. */
    method NameClick(index: int)
      requires 0 <= index < steps.Length
      modifies steps
      ensures forall j :: 0 <= j < steps.Length ==> steps[j] == old(steps[j]).(current := j == index)
      ensures forall j :: 0 <= j < steps.Length ==> (steps[j].current <==> j == index)
    {
      for i := 0 to steps.Length
        invariant forall j :: 0 <= j < i ==> steps[j] == old(steps[j]).(current := false)
        invariant forall j :: i <= j < steps.Length ==> steps[j] == old(steps[j])
      {
        steps[i] := steps[i].(current := false);
      }
      steps[index] := steps[index].(current := true);
    }

    /** `_saveChanges`: the URL of the PUT, the new current stage and the new
        history. */
    method SaveChanges() returns (url: string, newCurrentStage: string, newStageHistory: string)
      ensures url == "/api/opportunities/" + rowIndex
      ensures newCurrentStage == CurrentStageOf(steps[..], currentStage)
      ensures newStageHistory == SerializeHistory(steps[..])
    {
      var historyItems: seq<string> := [];
      for i := 0 to steps.Length
        invariant historyItems == HistoryItems(steps[..i])
      {
        assert steps[..i + 1][..i] == steps[..i];
        var status := steps[i].status;
        if status == Completed {
          historyItems := historyItems + ["C:" + steps[i].stageId];
        } else if status == Skipped {
          historyItems := historyItems + ["X:" + steps[i].stageId];
        }
      }
      assert steps[..steps.Length] == steps[..];
      newCurrentStage := CurrentStageOf(steps[..], currentStage);
      newStageHistory := Join(historyItems, ",");
      url := "/api/opportunities/" + rowIndex;
    }
  }

  /** After a name click, saving reports the clicked step's stage. */
  lemma NameClickSavesStage(steps: seq<Step>, index: int, fallback: string)
    requires 0 <= index < |steps|
    requires forall j :: 0 <= j < |steps| ==> (steps[j].current <==> j == index)
    ensures CurrentStageOf(steps, fallback) == steps[index].stageId
  {
    CurrentStageFirstMarked(steps, fallback);
  }
}
