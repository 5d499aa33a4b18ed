/**
 * The review of an edit proposal: the staging rule (only the assignee and
 * the memo may change) and the warning text shown above the Update button.
 */
module Review {
  import opened Actions
  import opened Diffing

  /** The two columns a proposal may change. */
  predicate Allowed(k: Field)
  {
    k == AssignedUserKey || k == MemoKey
  }

  /** The staging rule: every changed column is the assignee or the memo. */
  predicate Stageable(ds: seq<Diff>)
  {
    forall j :: 0 <= j < |ds| ==> Allowed(ds[j].key)
  }

  /** Changes of the assignee and memo columns carry text. */
  predicate WellTyped(ds: seq<Diff>)
  {
    forall j :: 0 <= j < |ds| ==> Allowed(ds[j].key) ==> ds[j].before.Text? && ds[j].after.Text?
  }

  lemma FrameDiffsWellTyped(bef: seq<Row>, aft: seq<Row>)
    ensures WellTyped(FrameDiffs(bef, aft))
  {
    FrameDiffsExact(bef, aft);
    var ds := FrameDiffs(bef, aft);
    forall j | 0 <= j < |ds| && Allowed(ds[j].key)
      ensures ds[j].before.Text? && ds[j].after.Text?
    {
      assert ds[j] in ds;
    }
  }

  const Header := "You're updating the following items.  \nPlease press **Update** button if this is correct.\n"
  const Refusal := "You only allow to update assigned_user or memo\n"
  /** The arrow of the pydantic draft: the UTF-8 bytes of U+21D2 read as Windows-1252. */
  const AppArrow := "\U{E2}\U{2021}\U{2019}"
  /** The arrow of the dataclass draft, U+21D2. */
  const StreamArrow := "\U{21D2}"

  function Digit(n: nat): char
    requires n < 10
  {
    "0123456789"[n]
  }

  function Decimal(n: nat): string
  {
    if n < 10 then [Digit(n)] else Decimal(n / 10) + [Digit(n % 10)]
  }

  /** One line of the warning: ``- [Line i] `key`: `before`  ⇒  `after` ``. */
  function ItemLine(d: Diff, arrow: string): string
    requires d.before.Text? && d.after.Text?
  {
    "- [Line " + Decimal(d.index) + "] `" + KeyName(d.key) + "`: `" + d.before.text + "`  "
      + arrow + "  `" + d.after.text + "`\n"
  }

  /** Changes that the warning lists: of an editable column, with text on both sides. */
  predicate Listable(ds: seq<Diff>)
  {
    forall j :: 0 <= j < |ds| ==> Allowed(ds[j].key) && ds[j].before.Text? && ds[j].after.Text?
  }

  function Items(ds: seq<Diff>, arrow: string): string
    requires Listable(ds)
  {
    if |ds| == 0 then "" else Items(ds[..|ds| - 1], arrow) + ItemLine(ds[|ds| - 1], arrow)
  }

  /** Position of the first change of a column other than the assignee and the memo, or the length. */
  function FirstDisallowed(ds: seq<Diff>): (p: nat)
    ensures p <= |ds| && Stageable(ds[..p])
    ensures forall j :: 0 <= j < p ==> Allowed(ds[j].key)
    ensures p < |ds| <==> !Stageable(ds)
    ensures p < |ds| ==> !Allowed(ds[p].key)
  {
    if |ds| == 0 then 0
    else if !Allowed(ds[0].key) then 0
    else
      var p := FirstDisallowed(ds[1..]) + 1;
      assert ds[..p] == [ds[0]] + ds[1..][..p - 1];
      assert !Stageable(ds[1..]) ==> !Stageable(ds) by {
        if !Stageable(ds[1..]) {
          var j :| 0 <= j < |ds| - 1 && !Allowed(ds[1..][j].key);
          assert ds[j + 1] == ds[1..][j];
        }
      }
      p
  }

  lemma ItemsStep(ds: seq<Diff>, j: nat, arrow: string, prefix: string)
    requires j < |ds| && Listable(ds[..j + 1])
    ensures Listable(ds[..j])
    ensures prefix + Items(ds[..j + 1], arrow) == (prefix + Items(ds[..j], arrow)) + ItemLine(ds[j], arrow)
  {
    assert ds[..j + 1][..j] == ds[..j];
    assert forall i :: 0 <= i < j ==> ds[..j][i] == ds[..j + 1][i];
  }

  /** A well-typed list is listable up to its first disallowed change. */
  lemma ListableUpTo(ds: seq<Diff>, j: nat)
    requires WellTyped(ds) && j <= FirstDisallowed(ds)
    ensures Listable(ds[..j])
  {
    assert forall i :: 0 <= i < j ==> ds[..j][i] == ds[..FirstDisallowed(ds)][i];
  }

  /** The review warning: the listed changes, or the refusal alone. */
  function ReviewText(ds: seq<Diff>, arrow: string): (r: string)
    requires WellTyped(ds)
    ensures Stageable(ds) <==> |r| >= |Header| && r[..|Header|] == Header
  {
    if Stageable(ds) then
      ListableUpTo(ds, |ds|);
      assert ds[..|ds|] == ds;
      assert (Header + Items(ds, arrow))[..|Header|] == Header;
      Header + Items(ds, arrow)
    else
      assert |Refusal| < |Header|;
      Refusal
  }

  /**
   * The warning of the dataclass draft as written: the refusal text goes to
   * a misspelt variable, so the header and the changes listed before the
   * first disallowed one are shown instead.
   */
  function ReviewTextAsWritten(ds: seq<Diff>): (r: string)
    requires WellTyped(ds)
    ensures |r| >= |Header| && r[..|Header|] == Header
  {
    var p := FirstDisallowed(ds);
    ListableUpTo(ds, p);
    Header + Items(ds[..p], StreamArrow)
  }

  /**
   * The review loop of the action list: the proposal is accepted exactly
   * when every changed column is the assignee or the memo; an accepted one
   * lists every change, a rejected one shows only the refusal. Each draft
   * passes its own arrow.
   */
  method ReviewDiffs(diffs: seq<Diff>, arrow: string) returns (output: string, isOk: bool)
    requires WellTyped(diffs)
    ensures isOk <==> Stageable(diffs)
    ensures output == ReviewText(diffs, arrow)
  {
    output := Header;
    isOk := true;
    var j := 0;
    while j < |diffs|
      invariant 0 <= j <= FirstDisallowed(diffs)
      invariant Listable(diffs[..j])
      invariant output == Header + Items(diffs[..j], arrow)
    {
      if !Allowed(diffs[j].key) {
        isOk := false;
        output := Refusal;
        break;
      }
      ListableUpTo(diffs, j + 1);
      ItemsStep(diffs, j, arrow, Header);
      output := output + ItemLine(diffs[j], arrow);
      j := j + 1;
    }
    if isOk {
      assert diffs[..j] == diffs;
    }
  }

  /**
   * The review loop of the dataclass draft, as written: whether the proposal
   * is accepted is decided as in the pydantic draft, but the warning always
   * opens with the confirmation header and lists the changes before the first
   * disallowed one.
   */
  method ReviewDiffsAsWritten(diffs: seq<Diff>) returns (output: string, isOk: bool)
    requires WellTyped(diffs)
    ensures isOk <==> Stageable(diffs)
    ensures output == ReviewTextAsWritten(diffs)
  {
    output := Header;
    isOk := true;
    var j := 0;
    while j < |diffs|
      invariant 0 <= j <= FirstDisallowed(diffs)
      invariant Listable(diffs[..j])
      invariant output == Header + Items(diffs[..j], StreamArrow)
    {
      if !Allowed(diffs[j].key) {
        isOk := false;
        var ouput := Refusal;
        break;
      }
      ListableUpTo(diffs, j + 1);
      ItemsStep(diffs, j, StreamArrow, Header);
      output := output + ItemLine(diffs[j], StreamArrow);
      j := j + 1;
    }
  }

  /**
   * A rejected proposal in the dataclass draft shows a warning that opens with
   * the request to press Update, never the refusal, although nothing is
   * staged; the corrected review shows the refusal.
   */
  lemma RejectedProposalReadsAsConfirmation(ds: seq<Diff>)
    requires WellTyped(ds) && !Stageable(ds)
    ensures ReviewTextAsWritten(ds)[..|Header|] == Header
    ensures ReviewTextAsWritten(ds) != Refusal
    ensures ReviewText(ds, StreamArrow) == Refusal
  {
    assert |Header| > |Refusal|;
  }

  /** On an accepted proposal the as-written review shows what the corrected one shows. */
  lemma AsWrittenReviewAgreesOnAccepted(ds: seq<Diff>)
    requires WellTyped(ds) && Stageable(ds)
    ensures ReviewTextAsWritten(ds) == ReviewText(ds, StreamArrow)
  {
    assert ds[..FirstDisallowed(ds)] == ds;
  }

  /** The smallest case: one proposed change of an action's name. */
  lemma RenameProposalExample()
    ensures var ds := [Diff(1, NameKey, Text("test"), Text("renamed"))];
      WellTyped(ds) && !Stageable(ds) &&
      ReviewTextAsWritten(ds) == Header && ReviewText(ds, StreamArrow) == Refusal
  {
    var ds := [Diff(1, NameKey, Text("test"), Text("renamed"))];
    assert !Stageable(ds) by { assert !Allowed(ds[0].key); }
    assert FirstDisallowed(ds) == 0;
    assert ds[..0] == [];
  }
}
