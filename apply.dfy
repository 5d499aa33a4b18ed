/**
 * The application of a staged proposal to the actions: each record sets the
 * assignee (reverse-mapped from its display name) or the memo of one action.
 */
module Apply {
  import opened Wrappers
  import opened Actions
  import opened Progress
  import opened Diffing
  import opened Review

  /** A staged list fits a table of `n` actions: each diff names one of its rows and an editable column. */
  predicate Fits(ds: seq<Diff>, n: nat)
  {
    forall j :: 0 <= j < |ds| ==> 1 <= ds[j].index <= n && Allowed(ds[j].key) && ds[j].after.Text?
  }

  /** A stageable diff of the table of `n` actions fits it. */
  lemma FrameDiffsFit(bef: seq<Row>, aft: seq<Row>)
    requires Stageable(FrameDiffs(bef, aft))
    ensures Fits(FrameDiffs(bef, aft), |bef|)
  {
    FrameDiffsExact(bef, aft);
    FrameDiffsWellTyped(bef, aft);
    var ds := FrameDiffs(bef, aft);
    assert forall j :: 0 <= j < |ds| ==> ds[j] in ds;
  }

  /** The assignee or memo of an action, by column. */
  function EditableField(a: Action, k: Field): string
    requires Allowed(k)
  {
    if k == AssignedUserKey then a.assignedUser else a.memo
  }

  /**
   * One step of the Update loop: the new value, reverse-mapped for the
   * assignee, is written into the named field of row `index`. `None` where
   * the reverse lookup raises `KeyError`.
   */
  function ApplyOne(actions: seq<Action>, table: map<string, string>, d: Diff): (r: Option<seq<Action>>)
    requires 1 <= d.index <= |actions| && Allowed(d.key) && d.after.Text?
    ensures r.None? <==> d.key == AssignedUserKey && d.after.text !in table
    ensures r.Some? ==> |r.value| == |actions|
  {
    var a := actions[d.index - 1];
    if d.key == AssignedUserKey then
      if d.after.text in table then Some(actions[d.index - 1 := a.(assignedUser := table[d.after.text])])
      else None
    else Some(actions[d.index - 1 := a.(memo := d.after.text)])
  }

  /**
   * The Update loop over a staged list: the diffs are applied in order; the
   * first failed reverse lookup stops the loop, leaving the earlier diffs
   * applied, and reports `false`.
   */
  function ApplyAll(actions: seq<Action>, table: map<string, string>, ds: seq<Diff>): (r: (seq<Action>, bool))
    requires Fits(ds, |actions|)
    ensures |r.0| == |actions|
    decreases |ds|
  {
    if |ds| == 0 then (actions, true)
    else
      match ApplyOne(actions, table, ds[0])
      case None => (actions, false)
      case Some(next) =>
        assert forall j :: 0 < j < |ds| ==> ds[j] == ds[1..][j - 1];
        ApplyAll(next, table, ds[1..])
  }

  /** The value a diff writes. */
  function StagedValue(table: map<string, string>, d: Diff): string
    requires d.after.Text?
    requires d.key == AssignedUserKey ==> d.after.text in table
  {
    if d.key == AssignedUserKey then table[d.after.text] else d.after.text
  }

  /** One step of the Update loop writes exactly the named field of the named row. */
  lemma ApplyOneFrame(actions: seq<Action>, table: map<string, string>, d: Diff)
    requires 1 <= d.index <= |actions| && Allowed(d.key) && d.after.Text?
    ensures var r := ApplyOne(actions, table, d);
      (r.Some? <==> (d.key == AssignedUserKey ==> d.after.text in table)) &&
      (r.Some? ==>
        |r.value| == |actions| &&
        (forall i :: 0 <= i < |actions| && i != d.index - 1 ==> r.value[i] == actions[i]) &&
        var (was, now) := (actions[d.index - 1], r.value[d.index - 1]);
        now.status == was.status && now.name == was.name && now.requirements == was.requirements &&
        EditableField(now, d.key) == StagedValue(table, d) &&
        (forall k :: Allowed(k) && k != d.key ==> EditableField(now, k) == EditableField(was, k)))
  {
  }

  /** Applying a staged list succeeds exactly when every new assignee is in the reverse table. */
  lemma {:induction false} ApplyAllSucceeds(actions: seq<Action>, table: map<string, string>, ds: seq<Diff>)
    requires Fits(ds, |actions|)
    decreases |ds|
    ensures ApplyAll(actions, table, ds).1 <==>
      forall j :: 0 <= j < |ds| && ds[j].key == AssignedUserKey ==> ds[j].after.text in table
  {
    if |ds| > 0 {
      ApplyOneFrame(actions, table, ds[0]);
      assert forall j :: 0 < j < |ds| ==> ds[j] == ds[1..][j - 1];
      match ApplyOne(actions, table, ds[0])
      case None =>
      case Some(next) =>
        ApplyAllSucceeds(next, table, ds[1..]);
    }
  }

  /**
   * Applying a staged list never changes a status, a name or a requirement
   * list, so it keeps every invariant of the workflow's progress.
   */
  lemma {:induction false} ApplyAllKeepsProgress(actions: seq<Action>, table: map<string, string>, ds: seq<Diff>)
    requires Fits(ds, |actions|)
    decreases |ds|
    ensures var r := ApplyAll(actions, table, ds).0;
      forall i :: 0 <= i < |actions| ==>
        r[i].status == actions[i].status && r[i].name == actions[i].name &&
        r[i].requirements == actions[i].requirements
  {
    if |ds| > 0 {
      ApplyOneFrame(actions, table, ds[0]);
      assert forall j :: 0 < j < |ds| ==> ds[j] == ds[1..][j - 1];
      match ApplyOne(actions, table, ds[0])
      case None =>
      case Some(next) =>
        ApplyAllKeepsProgress(next, table, ds[1..]);
    }
  }

  /** An assignee or memo that no staged diff names is left as it was. */
  lemma {:induction false} ApplyAllUntouched(actions: seq<Action>, table: map<string, string>, ds: seq<Diff>, i: nat, k: Field)
    requires Fits(ds, |actions|) && i < |actions| && Allowed(k)
    requires forall j :: 0 <= j < |ds| ==> ds[j].index != i + 1 || ds[j].key != k
    decreases |ds|
    ensures EditableField(ApplyAll(actions, table, ds).0[i], k) == EditableField(actions[i], k)
  {
    if |ds| > 0 {
      ApplyOneFrame(actions, table, ds[0]);
      assert forall j :: 0 < j < |ds| ==> ds[j] == ds[1..][j - 1];
      match ApplyOne(actions, table, ds[0])
      case None =>
      case Some(next) =>
        ApplyAllUntouched(next, table, ds[1..], i, k);
    }
  }

  /** An action that no staged diff names is left whole. */
  lemma ApplyAllUntouchedRow(actions: seq<Action>, table: map<string, string>, ds: seq<Diff>, i: nat)
    requires Fits(ds, |actions|) && i < |actions|
    requires forall j :: 0 <= j < |ds| ==> ds[j].index != i + 1
    ensures ApplyAll(actions, table, ds).0[i] == actions[i]
  {
    ApplyAllKeepsProgress(actions, table, ds);
    ApplyAllUntouched(actions, table, ds, i, AssignedUserKey);
    ApplyAllUntouched(actions, table, ds, i, MemoKey);
  }

  /**
   * After a successful apply, a diff that no later diff overrides has put its
   * value in place: the named field of row `index` holds the new memo, or the
   * username the new display name maps back to.
   */
  lemma {:induction false} ApplyAllLands(actions: seq<Action>, table: map<string, string>, ds: seq<Diff>, p: nat)
    requires Fits(ds, |actions|) && ApplyAll(actions, table, ds).1
    requires p < |ds|
    requires forall q :: p < q < |ds| ==> ds[q].index != ds[p].index || ds[q].key != ds[p].key
    decreases |ds|
    ensures var d := ds[p];
      (d.key == AssignedUserKey ==> d.after.text in table) &&
      EditableField(ApplyAll(actions, table, ds).0[d.index - 1], d.key) == StagedValue(table, d)
  {
    var next := ApplyOne(actions, table, ds[0]).value;
    assert forall j :: 0 < j < |ds| ==> ds[j] == ds[1..][j - 1];
    ApplyOneFrame(actions, table, ds[0]);
    ApplyAllSucceeds(actions, table, ds);
    if p == 0 {
      ApplyAllUntouched(next, table, ds[1..], ds[0].index - 1, ds[0].key);
    } else {
      ApplyAllLands(next, table, ds[1..], p - 1);
    }
  }
}
