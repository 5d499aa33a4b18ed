/**
 * The workflow object and the page handlers that drive it: the task form
 * (Done, Skip, Update and Start buttons) and the action list (the table
 * editor whose changes become a staged proposal).
 */
module Engine {
  import opened Wrappers
  import opened Users
  import opened Actions
  import opened Progress
  import opened Diffing
  import opened Review
  import opened Apply

  /** How `start` ends: normally, on its assertion, or on indexing an empty list. */
  datatype StartResult = StartOk | InProgressAlready | EmptyActionList

  /** The button pressed in one run of the page, if any. */
  datatype Press = NoPress | PressDone | PressSkip | PressUpdate | PressStart

  /**
   * What the action list shows above the table; `FrameKeyError` where
   * `to_dataframe` raises `KeyError`.
   */
  datatype Notice = Silent | Warning(text: string) | FrameKeyError

  /**
   * `Workflow`, with the one session entry it is edited through: `staged`
   * stands for `st.session_state["task_diffs"]`, `None` when the key is absent.
   */
  class Workflow {
    var actions: seq<Action>
    var staged: Option<seq<Diff>>

    /** A staged proposal names rows of this workflow and editable columns only. */
    ghost predicate Valid()
      reads this
    {
      staged.Some? ==> Fits(staged.value, |actions|)
    }

    constructor (actions: seq<Action>)
      ensures this.actions == actions && staged == None && Valid()
    {
      this.actions := actions;
      staged := None;
    }

    /** `get_action_in_progress`: scans the actions in order and stops at the first in progress. */
    method GetActionInProgress() returns (r: Option<nat>)
      ensures r == FirstInProgress(actions)
    {
      var i := 0;
      while i < |actions|
        invariant 0 <= i <= |actions|
        invariant forall j :: 0 <= j < i ==> actions[j].status != InProgress
      {
        if actions[i].status == InProgress {
          return Some(i);
        }
        i := i + 1;
      }
      return None;
    }

    /**
     * `start`: fails its assertion when an action is in progress and raises
     * on an empty list; otherwise puts the first action in progress, without
     * looking at its status, and changes nothing else.
     */
    method Start() returns (result: StartResult)
      requires Valid()
      modifies this`actions
      ensures Valid()
      ensures result == if FirstInProgress(old(actions)).Some? then InProgressAlready
                        else if |old(actions)| == 0 then EmptyActionList
                        else StartOk
      ensures actions == if result == StartOk then Started(old(actions)) else old(actions)
    {
      var inProgress := GetActionInProgress();
      if inProgress.Some? {
        return InProgressAlready;
      }
      if |actions| == 0 {
        return EmptyActionList;
      }
      actions := actions[0 := actions[0].(status := InProgress)];
      return StartOk;
    }

    /**
     * `update_state`: finalizes the first action in progress with `status`
     * and `memo`, looks its position up again with `list.index` (by value),
     * and puts the action after that position in progress. On a list with
     * distinct names this is the intended transition `Advanced`.
     */
    method UpdateState(status: FinalStatus, memo: string)
      requires Valid()
      modifies this`actions
      ensures Valid()
      ensures actions == AdvancedAsWritten(old(actions), status, memo)
      ensures DistinctNames(old(actions)) ==> actions == Advanced(old(actions), status, memo)
      ensures AtMostOneInProgress(old(actions)) ==> AtMostOneInProgress(actions)
    {
      AsWrittenInvariants(actions, status, memo);
      var inProgress := GetActionInProgress();
      if inProgress.None? {
        return;
      }
      var i := inProgress.value;
      actions := actions[i := actions[i].(status := status, memo := memo)];
      var pos := IndexOf(actions, actions[i]);
      if pos == |actions| - 1 {
        return;
      }
      actions := actions[pos + 1 := actions[pos + 1].(status := InProgress)];
    }

    /**
     * The Update button: pops the staged proposal and writes each diff's new
     * value into its row, mapping display names back to usernames through
     * `table`. A display name missing from `table` raises `KeyError` there:
     * the proposal is already popped and the earlier diffs stay applied.
     */
    method ApplyStaged(table: map<string, string>) returns (ok: bool)
      requires Valid()
      modifies this
      ensures Valid() && staged == None
      ensures old(staged).None? ==> actions == old(actions) && ok
      ensures old(staged).Some? ==> (actions, ok) == ApplyAll(old(actions), table, old(staged).value)
    {
      ok := true;
      if staged.None? {
        return;
      }
      var diffs := staged.value;
      staged := None;
      var j := 0;
      while j < |diffs|
        invariant 0 <= j <= |diffs|
        invariant ok && staged == None
        invariant |actions| == |old(actions)| && Fits(diffs[j..], |actions|)
        invariant ApplyAll(old(actions), table, diffs) == ApplyAll(actions, table, diffs[j..])
      {
        var d := diffs[j];
        assert diffs[j..][0] == d && diffs[j..][1..] == diffs[j + 1..];
        var value := d.after.text;
        if d.key == AssignedUserKey {
          if value !in table {
            assert ApplyOne(actions, table, d).None?;
            ok := false;
            return;
          }
          value := table[value];
        }
        var a := actions[d.index - 1];
        actions := actions[d.index - 1 := if d.key == AssignedUserKey then a.(assignedUser := value) else a.(memo := value)];
        j := j + 1;
      }
      assert diffs[j..] == [];
    }

    /**
     * `st_action_form`. With an action in progress, only its assignee gets
     * the Done, Skip and Update buttons; with none, a finished workflow shows
     * its completion and any other gets the Start button. Every button keeps
     * at most one action in progress. The workflow's own list has distinct
     * names, and no button changes a name; on such a list every button also
     * keeps the list linear.
     */
    method ActionForm(username: string, press: Press, memoText: string, dir: Directory)
      requires Valid()
      modifies this
      ensures Valid()
      ensures FirstInProgress(old(actions)).Some? && username != old(actions)[FirstInProgress(old(actions)).value].assignedUser
        ==> actions == old(actions) && staged == old(staged)
      ensures FirstInProgress(old(actions)).Some? && username == old(actions)[FirstInProgress(old(actions)).value].assignedUser
        ==> match press
            case PressDone => actions == AdvancedAsWritten(old(actions), Done, memoText) && staged == old(staged)
            case PressSkip => actions == AdvancedAsWritten(old(actions), Skipped, memoText) && staged == old(staged)
            case PressUpdate => staged == None &&
              actions == if old(staged).Some? then ApplyAll(old(actions), ReverseTable(dir), old(staged).value).0 else old(actions)
            case _ => actions == old(actions) && staged == old(staged)
      ensures FirstInProgress(old(actions)).None? ==>
        staged == old(staged) &&
        actions == if press == PressStart && !Finished(old(actions)) then Started(old(actions)) else old(actions)
      ensures DistinctNames(old(actions)) ==> DistinctNames(actions)
      ensures AtMostOneInProgress(old(actions)) ==> AtMostOneInProgress(actions)
      ensures DistinctNames(old(actions)) && Linear(old(actions)) ==> Linear(actions)
    {
      var inProgress := GetActionInProgress();
      if inProgress.Some? {
        if username == actions[inProgress.value].assignedUser {
          match press {
            case PressDone =>
              AdvanceKeepsLinear(actions, Done, memoText);
              if AtMostOneInProgress(actions) {
                AdvanceHandsOver(actions, Done, memoText);
              }
              UpdateState(Done, memoText);
            case PressSkip =>
              AdvanceKeepsLinear(actions, Skipped, memoText);
              if AtMostOneInProgress(actions) {
                AdvanceHandsOver(actions, Skipped, memoText);
              }
              UpdateState(Skipped, memoText);
            case PressUpdate =>
              if staged.Some? {
                ApplyAllKeepsProgress(actions, ReverseTable(dir), staged.value);
                SameStatuses(actions, ApplyAll(actions, ReverseTable(dir), staged.value).0);
                var ok := ApplyStaged(ReverseTable(dir));
              }
            case _ =>
          }
        }
      } else if Finished(actions) {
      } else if press == PressStart {
        StartLeavesOnlyFirstInProgress(actions);
        if Linear(actions) {
          StartKeepsLinear(actions);
        }
        var result := Start();
      }
    }

    /**
     * `st_action_list` of the pydantic draft: the current table is compared
     * with the edited one; a non-empty diff is shown for review and staged
     * only when every change is of an assignee or a memo. A rejected or empty
     * diff leaves an earlier staged proposal in place.
     */
    method ActionList(dir: Directory, edited: seq<Row>) returns (notice: Notice)
      requires Valid()
      modifies this`staged
      ensures Valid()
      ensures ToFrame(dir, actions).None? ==> notice == FrameKeyError && staged == old(staged)
      ensures ToFrame(dir, actions).Some? ==>
        var ds := FrameDiffs(ToFrame(dir, actions).value, edited);
        (ds == [] ==> notice == Silent && staged == old(staged)) &&
        (ds != [] ==> WellTyped(ds) && notice == Warning(ReviewText(ds, AppArrow)) &&
                      staged == if Stageable(ds) then Some(ds) else old(staged))
    {
      var df := ToFrame(dir, actions);
      if df.None? {
        return FrameKeyError;
      }
      var diffs := CheckDiffDf(df.value, edited);
      if diffs == [] {
        return Silent;
      }
      FrameDiffsWellTyped(df.value, edited);
      var output, isOk := ReviewDiffs(diffs, AppArrow);
      notice := Warning(output);
      if isOk {
        FrameDiffsFit(df.value, edited);
        staged := Some(diffs);
      }
    }

    /**
     * `st_action_list` of the dataclass draft: the editor shows only the
     * name, status, assignee and memo columns, so the edited table has no
     * requirements column, and its records carry both rows. The review is
     * the draft's as written: the refusal goes to a misspelt variable, so a
     * rejected proposal shows the confirmation header and the changes before
     * the first disallowed one, and nothing is staged.
     */
    method StreamActionList(dir: Directory, edited: seq<Row>) returns (notice: Notice)
      requires Valid()
      requires forall i :: 0 <= i < |edited| ==> edited[i].requirements.None?
      modifies this`staged
      ensures Valid()
      ensures ToFrame(dir, actions).None? ==> notice == FrameKeyError && staged == old(staged)
      ensures ToFrame(dir, actions).Some? ==>
        var ds := FrameDiffs(ToFrame(dir, actions).value, edited);
        (forall j :: 0 <= j < |ds| ==> ds[j].key != RequirementsKey) &&
        (ds == [] ==> notice == Silent && staged == old(staged)) &&
        (ds != [] ==> WellTyped(ds) && notice == Warning(ReviewTextAsWritten(ds)) &&
                      staged == if Stageable(ds) then Some(ds) else old(staged))
    {
      var df := ToFrame(dir, actions);
      if df.None? {
        return FrameKeyError;
      }
      var traced := CheckDiffDfTraced(df.value, edited);
      var diffs := seq(|traced|, j requires 0 <= j < |traced| => traced[j].diff);
      assert diffs == FrameDiffs(df.value, edited);
      NoRequirementsDiff(df.value, edited);
      assert forall j :: 0 <= j < |diffs| ==> diffs[j] in diffs;
      if diffs == [] {
        return Silent;
      }
      FrameDiffsWellTyped(df.value, edited);
      var output, isOk := ReviewDiffsAsWritten(diffs);
      notice := Warning(output);
      if isOk {
        FrameDiffsFit(df.value, edited);
        staged := Some(diffs);
      }
    }
  }
}
