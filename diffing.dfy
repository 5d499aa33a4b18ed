/**
 * Edit proposals: the field-level diff of the action table against the
 * table the user edited (`check_diff_df`).
 */
module Diffing {
  import opened Wrappers
  import opened Users
  import opened Actions

  /** `{"index": i + 1, "key": key, "value": (before, after)}`; `index` counts rows from 1. */
  datatype Diff = Diff(index: nat, key: Field, before: Value, after: Value)

  function Min(x: nat, y: nat): nat
  {
    if x <= y then x else y
  }

  /** The diff of one column of row `i` (counted from 0), if both rows have it and the cells differ. */
  function CellDiff(i: nat, bef: Row, aft: Row, key: Field): seq<Diff>
  {
    var b := Cell(bef, key);
    var a := Cell(aft, key);
    if b.Some? && a.Some? && b.value != a.value then [Diff(i + 1, key, b.value, a.value)] else []
  }

  /** The diffs of the first `m` columns of row `i`. */
  function RowDiffs(i: nat, bef: Row, aft: Row, m: nat): seq<Diff>
    requires m <= ColumnCount
  {
    if m == 0 then [] else RowDiffs(i, bef, aft, m - 1) + CellDiff(i, bef, aft, Column(m - 1))
  }

  /** The diffs of the first `n` row pairs. */
  function FrameDiffsUpTo(bef: seq<Row>, aft: seq<Row>, n: nat): seq<Diff>
    requires n <= |bef| && n <= |aft|
  {
    if n == 0 then []
    else FrameDiffsUpTo(bef, aft, n - 1) + RowDiffs(n - 1, bef[n - 1], aft[n - 1], ColumnCount)
  }

  /** The diff of two tables, over the row pairs that `zip` forms. */
  function FrameDiffs(bef: seq<Row>, aft: seq<Row>): (r: seq<Diff>)
    ensures forall p :: 0 <= p < |r| ==> 1 <= r[p].index <= Min(|bef|, |aft|)
  {
    FrameDiffsUpToOrdered(bef, aft, Min(|bef|, |aft|));
    FrameDiffsUpTo(bef, aft, Min(|bef|, |aft|))
  }

  /**
   * `d` records a real change: its row is in both tables, its column is in
   * both rows, and it carries the two different cells.
   */
  ghost predicate IsChange(bef: seq<Row>, aft: seq<Row>, d: Diff)
  {
    1 <= d.index <= Min(|bef|, |aft|) && ChangesCell(bef[d.index - 1], aft[d.index - 1], d)
  }

  /** `d` carries the two different cells of its column in rows `bef` and `aft`. */
  ghost predicate ChangesCell(bef: Row, aft: Row, d: Diff)
  {
    Cell(bef, d.key) == Some(d.before) && Cell(aft, d.key) == Some(d.after) && d.before != d.after
  }

  /** Row-then-column order. */
  ghost predicate Precedes(x: Diff, y: Diff)
  {
    x.index < y.index || (x.index == y.index && ColumnPos(x.key) < ColumnPos(y.key))
  }

  ghost predicate Ordered(ds: seq<Diff>)
  {
    forall p, q :: 0 <= p < q < |ds| ==> Precedes(ds[p], ds[q])
  }

  lemma OrderedConcat(x: seq<Diff>, y: seq<Diff>)
    requires Ordered(x) && Ordered(y)
    requires forall p, q :: 0 <= p < |x| && 0 <= q < |y| ==> Precedes(x[p], y[q])
    ensures Ordered(x + y)
  {
    forall p, q | 0 <= p < q < |x + y|
      ensures Precedes((x + y)[p], (x + y)[q])
    {
      if q < |x| {
        assert (x + y)[p] == x[p] && (x + y)[q] == x[q];
      } else if p >= |x| {
        assert (x + y)[p] == y[p - |x|] && (x + y)[q] == y[q - |x|];
      } else {
        assert (x + y)[p] == x[p] && (x + y)[q] == y[q - |x|];
      }
    }
  }

  lemma {:induction false} RowDiffsExact(i: nat, bef: Row, aft: Row, m: nat, d: Diff)
    requires m <= ColumnCount
    ensures d in RowDiffs(i, bef, aft, m) <==>
      d.index == i + 1 && ColumnPos(d.key) < m && ChangesCell(bef, aft, d)
  {
    if m > 0 {
      RowDiffsExact(i, bef, aft, m - 1, d);
    }
  }

  lemma {:induction false} RowDiffsOrdered(i: nat, bef: Row, aft: Row, m: nat)
    requires m <= ColumnCount
    ensures Ordered(RowDiffs(i, bef, aft, m))
    ensures forall p :: 0 <= p < |RowDiffs(i, bef, aft, m)| ==>
      RowDiffs(i, bef, aft, m)[p].index == i + 1 && ColumnPos(RowDiffs(i, bef, aft, m)[p].key) < m
  {
    if m > 0 {
      RowDiffsOrdered(i, bef, aft, m - 1);
      var x := RowDiffs(i, bef, aft, m - 1);
      var y := CellDiff(i, bef, aft, Column(m - 1));
      assert RowDiffs(i, bef, aft, m) == x + y;
      assert |y| <= 1 && forall q :: 0 <= q < |y| ==> y[q].index == i + 1 && ColumnPos(y[q].key) == m - 1;
      OrderedConcat(x, y);
    }
  }

  lemma {:induction false} FrameDiffsUpToExact(bef: seq<Row>, aft: seq<Row>, n: nat, d: Diff)
    requires n <= |bef| && n <= |aft|
    ensures d in FrameDiffsUpTo(bef, aft, n) <==> IsChange(bef, aft, d) && d.index <= n
  {
    if n > 0 {
      FrameDiffsUpToExact(bef, aft, n - 1, d);
      RowDiffsExact(n - 1, bef[n - 1], aft[n - 1], ColumnCount, d);
    }
  }

  lemma {:induction false} FrameDiffsUpToOrdered(bef: seq<Row>, aft: seq<Row>, n: nat)
    requires n <= |bef| && n <= |aft|
    ensures Ordered(FrameDiffsUpTo(bef, aft, n))
    ensures forall p :: 0 <= p < |FrameDiffsUpTo(bef, aft, n)| ==> 1 <= FrameDiffsUpTo(bef, aft, n)[p].index <= n
  {
    if n > 0 {
      FrameDiffsUpToOrdered(bef, aft, n - 1);
      RowDiffsOrdered(n - 1, bef[n - 1], aft[n - 1], ColumnCount);
      var x := FrameDiffsUpTo(bef, aft, n - 1);
      var y := RowDiffs(n - 1, bef[n - 1], aft[n - 1], ColumnCount);
      assert FrameDiffsUpTo(bef, aft, n) == x + y;
      OrderedConcat(x, y);
    }
  }

  /**
   * `check_diff_df` is exact: a record is in the diff if and only if it
   * records a change of a column present in both rows of a row pair, and the
   * records come in row-then-column order. Together these fix the list.
   */
  lemma FrameDiffsExact(bef: seq<Row>, aft: seq<Row>)
    ensures forall d :: d in FrameDiffs(bef, aft) <==> IsChange(bef, aft, d)
    ensures Ordered(FrameDiffs(bef, aft))
  {
    forall d
      ensures d in FrameDiffs(bef, aft) <==> IsChange(bef, aft, d)
    {
      FrameDiffsUpToExact(bef, aft, Min(|bef|, |aft|), d);
    }
    FrameDiffsUpToOrdered(bef, aft, Min(|bef|, |aft|));
  }

  lemma {:induction false} SameRowNoDiff(i: nat, row: Row, m: nat)
    requires m <= ColumnCount
    ensures RowDiffs(i, row, row, m) == []
  {
    if m > 0 {
      SameRowNoDiff(i, row, m - 1);
    }
  }

  /** A table compared with itself has no diff. */
  lemma {:induction false} SameFrameNoDiff(rows: seq<Row>, n: nat)
    requires n <= |rows|
    ensures FrameDiffsUpTo(rows, rows, n) == []
  {
    if n > 0 {
      SameFrameNoDiff(rows, n - 1);
      SameRowNoDiff(n - 1, rows[n - 1], ColumnCount);
      assert FrameDiffsUpTo(rows, rows, n) ==
        FrameDiffsUpTo(rows, rows, n - 1) + RowDiffs(n - 1, rows[n - 1], rows[n - 1], ColumnCount);
    }
  }

  /**
   * The table editor of the dataclass draft shows only the name, status,
   * assignee and memo columns, so a change of requirements never appears in
   * its diff.
   */
  lemma NoRequirementsDiff(bef: seq<Row>, aft: seq<Row>)
    requires forall i :: 0 <= i < |aft| ==> aft[i].requirements.None?
    ensures forall d :: d in FrameDiffs(bef, aft) ==> d.key != RequirementsKey
  {
    FrameDiffsExact(bef, aft);
  }

  /** One more column of a row appends that column's diff. */
  lemma RowDiffsStep(done: seq<Diff>, i: nat, bef: Row, aft: Row, k: nat)
    requires k < ColumnCount
    ensures done + RowDiffs(i, bef, aft, k + 1) == done + RowDiffs(i, bef, aft, k) + CellDiff(i, bef, aft, Column(k))
  {
    assert RowDiffs(i, bef, aft, k + 1) == RowDiffs(i, bef, aft, k) + CellDiff(i, bef, aft, Column(k));
  }

  /** `check_diff_df`: nested loops over the zipped rows and the columns of each row. */
  method CheckDiffDf(bef: seq<Row>, aft: seq<Row>) returns (diffs: seq<Diff>)
    ensures diffs == FrameDiffs(bef, aft)
  {
    diffs := [];
    var i := 0;
    while i < |bef| && i < |aft|
      invariant 0 <= i <= Min(|bef|, |aft|)
      invariant diffs == FrameDiffsUpTo(bef, aft, i)
    {
      var k := 0;
      ghost var done := diffs;
      while k < ColumnCount
        invariant 0 <= k <= ColumnCount
        invariant diffs == done + RowDiffs(i, bef[i], aft[i], k)
      {
        var key := Column(k);
        RowDiffsStep(done, i, bef[i], aft[i], k);
        var b := Cell(bef[i], key);
        if b.Some? {
          var a := Cell(aft[i], key);
          if a.Some? && b.value != a.value {
            diffs := diffs + [Diff(i + 1, key, b.value, a.value)];
          }
        }
        k := k + 1;
      }
      i := i + 1;
    }
  }

  /** A record of the dataclass draft's `check_diff_df`, which also carries both rows. */
  datatype TracedDiff = TracedDiff(diff: Diff, rowBefore: Row, rowAfter: Row)

  /** `t` is `d` carrying the two rows of its index. */
  ghost predicate TracedAs(t: TracedDiff, d: Diff, bef: seq<Row>, aft: seq<Row>)
  {
    t.diff == d && 1 <= d.index <= Min(|bef|, |aft|) &&
    t.rowBefore == bef[d.index - 1] && t.rowAfter == aft[d.index - 1]
  }

  /** `ts` is `ds` with each record carrying the two rows of its index. */
  ghost predicate TracedBy(ts: seq<TracedDiff>, ds: seq<Diff>, bef: seq<Row>, aft: seq<Row>)
  {
    |ts| == |ds| && forall j :: 0 <= j < |ts| ==> TracedAs(ts[j], ds[j], bef, aft)
  }

  /** Tracing the next column of row `i` adds that column's diff, carrying both rows. */
  lemma TraceStep(ts: seq<TracedDiff>, done: seq<Diff>, bef: seq<Row>, aft: seq<Row>, i: nat, k: nat)
    requires i < |bef| && i < |aft| && k < ColumnCount
    requires TracedBy(ts, done + RowDiffs(i, bef[i], aft[i], k), bef, aft)
    ensures var c := CellDiff(i, bef[i], aft[i], Column(k));
      TracedBy(ts + (if c == [] then [] else [TracedDiff(c[0], bef[i], aft[i])]),
        done + RowDiffs(i, bef[i], aft[i], k + 1), bef, aft)
  {
    RowDiffsStep(done, i, bef[i], aft[i], k);
  }

  /**
   * `check_diff_df` of the dataclass draft: the same records, each carrying
   * the before and after rows it was found in (`values_bef`, `values_aft`).
   */
  method CheckDiffDfTraced(bef: seq<Row>, aft: seq<Row>) returns (diffs: seq<TracedDiff>)
    ensures TracedBy(diffs, FrameDiffs(bef, aft), bef, aft)
  {
    diffs := [];
    var i := 0;
    while i < |bef| && i < |aft|
      invariant 0 <= i <= Min(|bef|, |aft|)
      invariant TracedBy(diffs, FrameDiffsUpTo(bef, aft, i), bef, aft)
    {
      var k := 0;
      ghost var done := FrameDiffsUpTo(bef, aft, i);
      while k < ColumnCount
        invariant 0 <= k <= ColumnCount
        invariant TracedBy(diffs, done + RowDiffs(i, bef[i], aft[i], k), bef, aft)
      {
        var key := Column(k);
        TraceStep(diffs, done, bef, aft, i, k);
        var b := Cell(bef[i], key);
        if b.Some? {
          var a := Cell(aft[i], key);
          if a.Some? && b.value != a.value {
            diffs := diffs + [TracedDiff(Diff(i + 1, key, b.value, a.value), bef[i], aft[i])];
          }
        }
        k := k + 1;
      }
      i := i + 1;
    }
  }
}
