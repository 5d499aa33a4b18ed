/**
 * The linear approval workflow as a state machine over the ordered list of
 * actions: which action is in progress, what `start` and `update_state` turn
 * the list into, and the invariants those transitions keep.
 */
module Progress {
  import opened Wrappers
  import opened Actions

  /** `get_action_in_progress`: the position of the first action in progress, in list order. */
  function FirstInProgress(a: seq<Action>): (r: Option<nat>)
    ensures r.Some? ==> r.value < |a| && a[r.value].status == InProgress
    ensures r.Some? ==> forall j :: 0 <= j < r.value ==> a[j].status != InProgress
    ensures r.None? <==> forall j :: 0 <= j < |a| ==> a[j].status != InProgress
  {
    if |a| == 0 then None
    else if a[0].status == InProgress then Some(0)
    else
      match FirstInProgress(a[1..])
      case None => None
      case Some(k) => Some(k + 1)
  }

  /** `finished`: every action is done or skipped, so none is in progress and none is to do. */
  function Finished(a: seq<Action>): (r: bool)
    ensures r <==> FirstInProgress(a).None? && forall j :: 0 <= j < |a| ==> a[j].status != ToDo
  {
    forall i :: 0 <= i < |a| ==> IsFinal(a[i].status)
  }

  /** No two actions share a name. */
  ghost predicate DistinctNames(a: seq<Action>)
  {
    forall i, j :: 0 <= i < j < |a| ==> a[i].name != a[j].name
  }

  /** `r` differs from `a` at most in statuses and memos. */
  ghost predicate SameRecordsBut(a: seq<Action>, r: seq<Action>)
  {
    |r| == |a| &&
    forall j :: 0 <= j < |a| ==>
      r[j].assignedUser == a[j].assignedUser && r[j].name == a[j].name && r[j].requirements == a[j].requirements
  }

  ghost predicate AtMostOneInProgress(a: seq<Action>)
  {
    forall i, j :: 0 <= i < |a| && 0 <= j < |a| && a[i].status == InProgress && a[j].status == InProgress ==> i == j
  }

  /** The list after `start`: the first action is put in progress, whatever its status was. */
  function Started(a: seq<Action>): (r: seq<Action>)
    requires |a| > 0
    ensures |r| == |a| && r[0].status == InProgress
    ensures forall j :: 0 <= j < |a| ==> r[j] == a[j].(status := r[j].status) && (j > 0 ==> r[j] == a[j])
  {
    a[0 := a[0].(status := InProgress)]
  }

  /** The action at `i` finalized with `status`, its memo replaced. */
  function Finalized(a: seq<Action>, i: nat, status: FinalStatus, memo: string): seq<Action>
    requires i < |a|
  {
    a[i := a[i].(status := status, memo := memo)]
  }

  /**
   * The list after `update_state(status, memo)`: nothing changes when no
   * action is in progress; otherwise the first action in progress is
   * finalized and, unless it was the last, its successor is put in progress.
   */
  function Advanced(a: seq<Action>, status: FinalStatus, memo: string): (r: seq<Action>)
    ensures SameRecordsBut(a, r)
  {
    match FirstInProgress(a)
    case None => a
    case Some(i) =>
      var b := Finalized(a, i, status, memo);
      if i == |a| - 1 then b else b[i + 1 := b[i + 1].(status := InProgress)]
  }

  /** `list.index(x)`: the first position holding a record equal to `x`. */
  function IndexOf(s: seq<Action>, x: Action): (r: nat)
    requires x in s
    ensures r < |s| && s[r] == x && x !in s[..r]
  {
    if s[0] == x then 0
    else
      var r := IndexOf(s[1..], x) + 1;
      assert s[..r] == [s[0]] + s[1..][..r - 1];
      r
  }

  /**
   * `update_state` as written: after finalizing, the position of the
   * finalized action is looked up again with `list.index`, which compares
   * records by value, and the action after that position is put in progress.
   */
  function AdvancedAsWritten(a: seq<Action>, status: FinalStatus, memo: string): (r: seq<Action>)
    ensures SameRecordsBut(a, r)
  {
    match FirstInProgress(a)
    case None => a
    case Some(i) =>
      var b := Finalized(a, i, status, memo);
      var pos := IndexOf(b, b[i]);
      if pos == |a| - 1 then b else b[pos + 1 := b[pos + 1].(status := InProgress)]
  }

  /**
   * When no earlier action shares the in-progress action's name, `list.index`
   * finds the scanned position and the as-written transition is the
   * intended one.
   */
  lemma AsWrittenAgreesOnDistinctNames(a: seq<Action>, status: FinalStatus, memo: string)
    requires FirstInProgress(a).Some?
    requires forall j :: 0 <= j < FirstInProgress(a).value ==> a[j].name != a[FirstInProgress(a).value].name
    ensures AdvancedAsWritten(a, status, memo) == Advanced(a, status, memo)
  {
    var i := FirstInProgress(a).value;
    var b := Finalized(a, i, status, memo);
    var pos := IndexOf(b, b[i]);
    assert forall j :: 0 <= j < i ==> b[j].name != b[i].name;
    assert b[i] !in b[..i];
    assert b[i] in b[..pos + 1];
  }

  /**
   * `update_state` as written keeps at most one action in progress: the
   * position `list.index` finds is at or before the finalized one, and only
   * the action after it ends in progress.
   */
  lemma AsWrittenKeepsAtMostOne(a: seq<Action>, status: FinalStatus, memo: string)
    requires AtMostOneInProgress(a)
    ensures AtMostOneInProgress(AdvancedAsWritten(a, status, memo))
  {
    if FirstInProgress(a).Some? {
      var i := FirstInProgress(a).value;
      var b := Finalized(a, i, status, memo);
      var pos := IndexOf(b, b[i]);
      assert b[..i + 1][i] == b[i];
      assert pos <= i;
      assert forall j :: 0 <= j < |b| ==> b[j].status != InProgress;
    }
  }

  /**
   * On a list whose names are distinct, which the workflow's own list is and
   * which no transition changes, `update_state` as written is the intended
   * transition, and the names stay distinct.
   */
  lemma AsWrittenIsAdvancedOnDistinctNames(a: seq<Action>, status: FinalStatus, memo: string)
    requires DistinctNames(a)
    ensures AdvancedAsWritten(a, status, memo) == Advanced(a, status, memo)
    ensures DistinctNames(Advanced(a, status, memo))
  {
    if FirstInProgress(a).Some? {
      AsWrittenAgreesOnDistinctNames(a, status, memo);
    }
  }

  /** What `update_state` as written keeps, on every list and on lists with distinct names. */
  lemma AsWrittenInvariants(a: seq<Action>, status: FinalStatus, memo: string)
    ensures AtMostOneInProgress(a) ==> AtMostOneInProgress(AdvancedAsWritten(a, status, memo))
    ensures DistinctNames(a) ==> AdvancedAsWritten(a, status, memo) == Advanced(a, status, memo)
  {
    if AtMostOneInProgress(a) {
      AsWrittenKeepsAtMostOne(a, status, memo);
    }
    if DistinctNames(a) {
      AsWrittenIsAdvancedOnDistinctNames(a, status, memo);
    }
  }

  /**
   * Three actions, the first two alike in every field but status and memo.
   * Finalizing the second with the first one's memo makes the two records
   * equal, so `list.index` returns 0 and the second action is put back in
   * progress while the third is never reached.
   */
  lemma AsWrittenReopensFinalizedAction()
    ensures var x := Action("ponta", "review", [], Done, "m");
      var a := [x, x.(status := InProgress, memo := ""), Action("ponta", "approve", [], ToDo, "")];
      AdvancedAsWritten(a, Done, "m") == [x, x.(status := InProgress), a[2]] &&
      Advanced(a, Done, "m") == [x, x, a[2].(status := InProgress)]
  {
    var x := Action("ponta", "review", [], Done, "m");
    var a := [x, x.(status := InProgress, memo := ""), Action("ponta", "approve", [], ToDo, "")];
    assert FirstInProgress(a) == Some(1) by {
      assert a[0].status != InProgress && a[1].status == InProgress;
    }
    var b := Finalized(a, 1, Done, "m");
    assert b[1] == x && b[0] == x;
    assert IndexOf(b, b[1]) == 0;
  }

  /**
   * `start` on a list with nothing in progress leaves exactly one action in
   * progress, the first, and changes nothing else.
   */
  lemma StartLeavesOnlyFirstInProgress(a: seq<Action>)
    requires |a| > 0 && FirstInProgress(a).None?
    ensures forall j :: 0 <= j < |a| ==> (Started(a)[j].status == InProgress <==> j == 0)
    ensures AtMostOneInProgress(Started(a))
    ensures FirstInProgress(Started(a)) == Some(0)
  {
  }

  /**
   * The hand-over: with at most one action in progress, finalizing it puts
   * exactly its successor in progress, or, when it was the last action, no
   * action at all. So the invariant "at most one in progress" is kept.
   */
  lemma AdvanceHandsOver(a: seq<Action>, status: FinalStatus, memo: string)
    requires AtMostOneInProgress(a) && FirstInProgress(a).Some?
    ensures var i := FirstInProgress(a).value;
      forall j :: 0 <= j < |a| ==>
        (Advanced(a, status, memo)[j].status == InProgress <==> i < |a| - 1 && j == i + 1)
    ensures AtMostOneInProgress(Advanced(a, status, memo))
  {
    var i := FirstInProgress(a).value;
    var r := Advanced(a, status, memo);
    forall j | 0 <= j < |a|
      ensures r[j].status == InProgress <==> i < |a| - 1 && j == i + 1
    {
      if j != i && j != i + 1 {
        assert r[j] == a[j];
        assert a[j].status != InProgress;
      }
    }
  }

  /** `update_state` when no action is in progress leaves the list as it was. */
  lemma AdvanceIdleIsNoOp(a: seq<Action>, status: FinalStatus, memo: string)
    requires FirstInProgress(a).None?
    ensures Advanced(a, status, memo) == a
    ensures !Finished(a) ==> exists j :: 0 <= j < |a| && a[j].status == ToDo
  {
    if !Finished(a) {
      var j :| 0 <= j < |a| && !IsFinal(a[j].status);
      assert a[j].status != InProgress;
    }
  }

  /**
   * `update_state` changes only the finalized action and its successor:
   * it finalizes the one, puts the other in progress, and leaves every other
   * action as it was.
   */
  lemma AdvanceFrame(a: seq<Action>, status: FinalStatus, memo: string)
    ensures var r := Advanced(a, status, memo);
      (FirstInProgress(a).Some? ==>
         var i := FirstInProgress(a).value;
         r[i].status == status && r[i].memo == memo &&
         (forall j :: 0 <= j < |a| && j != i && j != i + 1 ==> r[j] == a[j]) &&
         (i + 1 < |a| ==> r[i + 1] == a[i + 1].(status := InProgress)))
  {
  }

  /** Nothing started yet: every action is still to do. */
  ghost predicate NotStarted(a: seq<Action>)
  {
    forall j :: 0 <= j < |a| ==> a[j].status == ToDo
  }

  /** Running at `k`: every earlier action finalized, `k` in progress, every later one to do. */
  ghost predicate RunningAt(a: seq<Action>, k: int)
  {
    0 <= k < |a| &&
    (forall j :: 0 <= j < k ==> IsFinal(a[j].status)) &&
    a[k].status == InProgress &&
    (forall j :: k < j < |a| ==> a[j].status == ToDo)
  }

  /**
   * The shape every list takes when it starts with every action to do and
   * changes only by `start` and `update_state`: not started, running at one
   * position, or finished.
   */
  ghost predicate Linear(a: seq<Action>)
  {
    NotStarted(a) || (exists k :: RunningAt(a, k)) || Finished(a)
  }

  lemma LinearHasAtMostOneInProgress(a: seq<Action>)
    requires Linear(a)
    ensures AtMostOneInProgress(a)
  {
    if exists k :: RunningAt(a, k) {
      var k :| RunningAt(a, k);
      forall i | 0 <= i < |a| && a[i].status == InProgress
        ensures i == k
      {
      }
    }
  }

  /** `start` keeps the list linear; from a linear list it only ever starts a fresh one. */
  lemma StartKeepsLinear(a: seq<Action>)
    requires Linear(a) && |a| > 0 && FirstInProgress(a).None? && !Finished(a)
    ensures NotStarted(a)
    ensures RunningAt(Started(a), 0)
  {
  }

  /**
   * `update_state` keeps the list linear: running at `k` becomes running at
   * `k + 1`, and finalizing the last action finishes the workflow with no
   * action left in progress.
   */
  lemma AdvanceKeepsLinear(a: seq<Action>, status: FinalStatus, memo: string)
    ensures Linear(a) ==> Linear(Advanced(a, status, memo))
    ensures forall k :: RunningAt(a, k) ==>
      if k + 1 < |a| then RunningAt(Advanced(a, status, memo), k + 1)
      else Finished(Advanced(a, status, memo)) && FirstInProgress(Advanced(a, status, memo)).None?
  {
    forall k | RunningAt(a, k)
      ensures if k + 1 < |a| then RunningAt(Advanced(a, status, memo), k + 1)
              else Finished(Advanced(a, status, memo)) && FirstInProgress(Advanced(a, status, memo)).None?
    {
      LinearHasAtMostOneInProgress(a);
      assert FirstInProgress(a) == Some(k);
      var r := Advanced(a, status, memo);
      assert forall j :: 0 <= j < |a| && j != k && j != k + 1 ==> r[j] == a[j];
    }
    if Linear(a) && !(exists k :: RunningAt(a, k)) {
      if NotStarted(a) {
        assert FirstInProgress(a).None?;
      } else {
        assert Finished(a);
        assert FirstInProgress(a).None?;
      }
    }
  }

  /**
   * Finalizing the last action when every earlier one is finalized leaves no
   * action in progress and the workflow finished.
   */
  lemma FinalizingLastFinishes(a: seq<Action>, status: FinalStatus, memo: string)
    requires |a| > 0 && a[|a| - 1].status == InProgress
    requires forall j :: 0 <= j < |a| - 1 ==> IsFinal(a[j].status)
    ensures Finished(Advanced(a, status, memo))
    ensures FirstInProgress(Advanced(a, status, memo)).None?
  {
    assert RunningAt(a, |a| - 1);
    AdvanceKeepsLinear(a, status, memo);
  }

  /** Progress depends on statuses alone. */
  lemma SameStatuses(a: seq<Action>, b: seq<Action>)
    requires |a| == |b| && forall i :: 0 <= i < |a| ==> a[i].status == b[i].status
    ensures Linear(a) ==> Linear(b)
    ensures AtMostOneInProgress(a) ==> AtMostOneInProgress(b)
    ensures FirstInProgress(a) == FirstInProgress(b)
    ensures Finished(a) == Finished(b)
  {
    if Linear(a) && exists k :: RunningAt(a, k) {
      var k :| RunningAt(a, k);
      assert RunningAt(b, k);
    }
    if FirstInProgress(a).Some? {
      var i := FirstInProgress(a).value;
      assert b[i].status == InProgress;
    }
  }
}
