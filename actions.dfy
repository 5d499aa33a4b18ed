/**
 * The action records of a workflow, their rows in the action table, and the
 * edges of the flow chart.
 */
module Actions {
  import opened Wrappers
  import opened Users

  datatype Status = ToDo | InProgress | Done | Skipped

  /** The two statuses `update_state` may finalize an action with. */
  type FinalStatus = s: Status | s == Done || s == Skipped witness Done

  predicate IsFinal(s: Status)
  {
    s == Done || s == Skipped
  }

  /**
   * `ActionNode`. Where a draft allows `requirements` to be `None`, it is read
   * as the empty list. The table then holds `[]` where `to_dataframe` keeps
   * `None`; that cell never reaches a diff or an apply, and the flow chart
   * reads `None` as `[]`.
   */
  datatype Action = Action(
    assignedUser: string,
    name: string,
    requirements: seq<string>,
    status: Status,
    memo: string)

  /** The columns of the action table, in the order of the record's fields. */
  datatype Field = AssignedUserKey | NameKey | RequirementsKey | StatusKey | MemoKey

  const ColumnCount: nat := 5

  /** The column at position `p` of the table. */
  function Column(p: nat): (k: Field)
    requires p < ColumnCount
    ensures ColumnPos(k) == p
  {
    if p == 0 then AssignedUserKey
    else if p == 1 then NameKey
    else if p == 2 then RequirementsKey
    else if p == 3 then StatusKey
    else MemoKey
  }

  /** Position of a column in the table. */
  function ColumnPos(k: Field): (p: nat)
    ensures p < ColumnCount
  {
    match k
    case AssignedUserKey => 0
    case NameKey => 1
    case RequirementsKey => 2
    case StatusKey => 3
    case MemoKey => 4
  }

  /** The column name as the table spells it. */
  function KeyName(k: Field): string
  {
    match k
    case AssignedUserKey => "assigned_user"
    case NameKey => "name"
    case RequirementsKey => "requirements"
    case StatusKey => "status"
    case MemoKey => "memo"
  }

  /** A cell of the action table. */
  datatype Value = Text(text: string) | Names(names: seq<string>) | State(state: Status)

  /** One record of a table; a column the table does not have is `None`. */
  datatype Row = Row(
    assignedUser: Option<string>,
    name: Option<string>,
    requirements: Option<seq<string>>,
    status: Option<Status>,
    memo: Option<string>)

  /** `row[key]`, or `None` when `key not in row.keys()`. */
  function Cell(row: Row, key: Field): (r: Option<Value>)
    ensures r.Some? ==> (key == RequirementsKey <==> r.value.Names?)
    ensures r.Some? ==> (key == StatusKey <==> r.value.State?)
  {
    match key
    case AssignedUserKey => if row.assignedUser.Some? then Some(Text(row.assignedUser.value)) else None
    case NameKey => if row.name.Some? then Some(Text(row.name.value)) else None
    case RequirementsKey => if row.requirements.Some? then Some(Names(row.requirements.value)) else None
    case StatusKey => if row.status.Some? then Some(State(row.status.value)) else None
    case MemoKey => if row.memo.Some? then Some(Text(row.memo.value)) else None
  }

  /** The row of one action, its assignee already in display form. */
  function RowOf(a: Action, display: string): Row
  {
    Row(Some(display), Some(a.name), Some(a.requirements), Some(a.status), Some(a.memo))
  }

  predicate AllAssigneesKnown(dir: Directory, actions: seq<Action>)
  {
    forall i :: 0 <= i < |actions| ==> Known(dir, actions[i].assignedUser)
  }

  /**
   * `to_dataframe`: one row per action, in order (table row `i + 1` holds
   * action `i`), with the assignee in display form. `None` where it raises
   * `KeyError`: an empty list gives a table without an `assigned_user`
   * column, and formatting an unknown assignee fails.
   */
  function ToFrame(dir: Directory, actions: seq<Action>): (r: Option<seq<Row>>)
    ensures r.Some? <==> |actions| > 0 && AllAssigneesKnown(dir, actions)
    ensures r.Some? ==> |r.value| == |actions|
    ensures r.Some? ==> forall i :: 0 <= i < |actions| ==>
      r.value[i] == RowOf(actions[i], FormatFullname(dir, actions[i].assignedUser).value)
  {
    if |actions| == 0 then None else FrameRows(dir, actions)
  }

  /** The rows of `to_dataframe`, `None` when an assignee is unknown. */
  function FrameRows(dir: Directory, actions: seq<Action>): (r: Option<seq<Row>>)
    ensures r.Some? <==> AllAssigneesKnown(dir, actions)
    ensures r.Some? ==> |r.value| == |actions|
    ensures r.Some? ==> forall i :: 0 <= i < |actions| ==>
      r.value[i] == RowOf(actions[i], FormatFullname(dir, actions[i].assignedUser).value)
  {
    if |actions| == 0 then Some([])
    else
      match FormatFullname(dir, actions[0].assignedUser)
      case None => None
      case Some(d) =>
        match FrameRows(dir, actions[1..])
        case None =>
          assert !AllAssigneesKnown(dir, actions) by {
            var j :| 0 <= j < |actions| - 1 && !Known(dir, actions[1..][j].assignedUser);
            assert actions[1..][j] == actions[j + 1];
          }
          None
        case Some(rest) => Some([RowOf(actions[0], d)] + rest)
  }

  /**
   * Round trip of the table: reading each row's assignee back through the
   * reverse table, and its other cells as they are, gives the actions back.
   */
  lemma FrameRoundTrip(dir: Directory, actions: seq<Action>)
    requires IsDict(dir) && PlainUsernames(dir) && |actions| > 0 && AllAssigneesKnown(dir, actions)
    ensures ToFrame(dir, actions).Some?
    ensures forall i :: 0 <= i < |actions| ==>
      var row := ToFrame(dir, actions).value[i];
      row.assignedUser.Some? && row.assignedUser.value in ReverseTable(dir) &&
      actions[i] == Action(ReverseTable(dir)[row.assignedUser.value], row.name.value,
                           row.requirements.value, row.status.value, row.memo.value)
  {
    forall i | 0 <= i < |actions|
      ensures var row := ToFrame(dir, actions).value[i];
        row.assignedUser.Some? && row.assignedUser.value in ReverseTable(dir) &&
        ReverseTable(dir)[row.assignedUser.value] == actions[i].assignedUser
    {
      ReverseOfFormat(dir, actions[i].assignedUser);
    }
  }

  /** The flow-chart edges of one action: one `(requirement, name)` per requirement. */
  function EdgesOf(a: Action): seq<(string, string)>
  {
    seq(|a.requirements|, k requires 0 <= k < |a.requirements| => (a.requirements[k], a.name))
  }

  /** The flow-chart edges of a workflow, action by action in list order. */
  function GraphEdges(actions: seq<Action>): (r: seq<(string, string)>)
    ensures forall p :: 0 <= p < |r| ==> exists i :: 0 <= i < |actions| && r[p].1 == actions[i].name
  {
    if |actions| == 0 then []
    else
      var rest := GraphEdges(actions[1..]);
      assert forall p :: 0 <= p < |rest| ==> exists i :: 0 < i < |actions| && rest[p].1 == actions[i].name by {
        forall p | 0 <= p < |rest|
          ensures exists i :: 0 < i < |actions| && rest[p].1 == actions[i].name
        {
          var i :| 0 <= i < |actions[1..]| && rest[p].1 == actions[1..][i].name;
          assert actions[1..][i] == actions[i + 1];
        }
      }
      EdgesOf(actions[0]) + rest
  }

  /**
   * An edge `(r, n)` is drawn exactly when some action named `n` lists `r`
   * among its requirements; nothing checks that `r` names an action.
   */
  lemma {:induction false} GraphEdgesExact(actions: seq<Action>, r: string, n: string)
    ensures (r, n) in GraphEdges(actions) <==>
      exists i :: 0 <= i < |actions| && actions[i].name == n && r in actions[i].requirements
  {
    if |actions| > 0 {
      GraphEdgesExact(actions[1..], r, n);
      var a := actions[0];
      assert (r, n) in EdgesOf(a) <==> a.name == n && r in a.requirements by {
        if a.name == n && r in a.requirements {
          var k :| 0 <= k < |a.requirements| && a.requirements[k] == r;
          assert EdgesOf(a)[k] == (r, n);
        }
      }
      if (exists i :: 0 <= i < |actions| && actions[i].name == n && r in actions[i].requirements) {
        var i :| 0 <= i < |actions| && actions[i].name == n && r in actions[i].requirements;
        if i > 0 {
          assert actions[1..][i - 1] == actions[i];
        }
      }
    }
  }
}
