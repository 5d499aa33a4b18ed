/**
 * The user directory and the display form of a username.
 *
 * `USER_FULLNAMES` is a dictionary from username to full name; here it is a
 * sequence of entries in the dictionary's insertion order. A username is
 * displayed as `"Full Name (username)"`, and the reverse table maps every
 * display form back to its username.
 */
module Users {
  import opened Wrappers

  datatype Entry = Entry(username: string, fullname: string)

  /** `USER_FULLNAMES`, in insertion order. */
  type Directory = seq<Entry>

  /** A Python dictionary never holds the same key twice. */
  ghost predicate IsDict(dir: Directory)
  {
    forall i, j :: 0 <= i < j < |dir| ==> dir[i].username != dir[j].username
  }

  predicate Known(dir: Directory, u: string)
  {
    exists i :: 0 <= i < |dir| && dir[i].username == u
  }

  /** Usernames without an opening parenthesis, so that a display form can be parsed back. */
  ghost predicate PlainUsernames(dir: Directory)
  {
    forall i :: 0 <= i < |dir| ==> '(' !in dir[i].username
  }

  /** The display form of one entry. */
  function Display(fullname: string, u: string): string
  {
    fullname + " (" + u + ")"
  }

  /** `USER_FULLNAMES[u]`; `None` where the lookup raises `KeyError`. */
  function FullnameOf(dir: Directory, u: string): (r: Option<string>)
    ensures r.Some? <==> Known(dir, u)
    ensures r.Some? ==> exists i :: 0 <= i < |dir| && dir[i] == Entry(u, r.value)
  {
    if |dir| == 0 then None
    else if dir[0].username == u then Some(dir[0].fullname)
    else
      var r := FullnameOf(dir[1..], u);
      assert forall i :: 0 < i < |dir| ==> dir[i] == dir[1..][i - 1];
      r
  }

  /** Index of the last occurrence of `c` in `s`. */
  function LastIndexOf(s: string, c: char): (r: Option<nat>)
    ensures r.Some? ==> r.value < |s| && s[r.value] == c && c !in s[r.value + 1..]
    ensures r.None? ==> c !in s
  {
    if |s| == 0 then None
    else if s[|s| - 1] == c then Some(|s| - 1)
    else
      var r := LastIndexOf(s[..|s| - 1], c);
      assert s == s[..|s| - 1] + [s[|s| - 1]];
      r
  }

  /** Reads the username back out of `"Full Name (username)"`. */
  function ParseUsername(d: string): Option<string>
  {
    if |d| == 0 || d[|d| - 1] != ')' then None
    else match LastIndexOf(d[..|d| - 1], '(')
      case None => None
      case Some(p) => Some(d[p + 1..|d| - 1])
  }

  /**
   * `format_fullname(u)`: the display form of `u`, or `None` where the
   * directory lookup raises. The username can be read back from it whenever
   * it holds no opening parenthesis.
   */
  function FormatFullname(dir: Directory, u: string): (r: Option<string>)
    ensures r.Some? <==> Known(dir, u)
    ensures r.Some? && '(' !in u ==> ParseUsername(r.value) == Some(u)
  {
    match FullnameOf(dir, u)
    case None => None
    case Some(f) =>
      ParseDisplay(f, u);
      Some(Display(f, u))
  }

  lemma {:induction false} LastIndexAfter(p: string, u: string, c: char)
    requires c !in u
    ensures LastIndexOf(p + [c] + u, c) == Some(|p|)
    decreases |u|
  {
    var s := p + [c] + u;
    if |u| > 0 {
      assert s[..|s| - 1] == p + [c] + u[..|u| - 1];
      LastIndexAfter(p, u[..|u| - 1], c);
    }
  }

  lemma ParseDisplay(f: string, u: string)
    ensures '(' !in u ==> ParseUsername(Display(f, u)) == Some(u)
  {
    if '(' !in u {
      var d := Display(f, u);
      assert d[..|d| - 1] == (f + [' ']) + ['('] + u;
      LastIndexAfter(f + [' '], u, '(');
      assert d[|f| + 2..|d| - 1] == u;
    }
  }

  /** In a dictionary, the last entry's key looks up its own full name. */
  lemma FullnameOfLast(dir: Directory)
    requires IsDict(dir) && |dir| > 0
    ensures FullnameOf(dir, dir[|dir| - 1].username) == Some(dir[|dir| - 1].fullname)
  {
    var e := dir[|dir| - 1];
    var j :| 0 <= j < |dir| && dir[j] == Entry(e.username, FullnameOf(dir, e.username).value);
    assert j == |dir| - 1;
  }

  /**
   * `USER_REVERSE_FORMATTED_FULLNAMES`: the dictionary comprehension
   * `{format_fullname(k): k for k in USER_FULLNAMES}`. A later entry with the
   * same display form replaces an earlier one, as in Python.
   */
  function ReverseTable(dir: Directory): (r: map<string, string>)
    ensures forall i :: 0 <= i < |dir| ==> Display(dir[i].fullname, dir[i].username) in r
  {
    if |dir| == 0 then map[]
    else
      var e := dir[|dir| - 1];
      ReverseTable(dir[..|dir| - 1])[Display(e.fullname, e.username) := e.username]
  }

  lemma FullnameOfPrefix(dir: Directory, u: string)
    requires |dir| > 0 && Known(dir[..|dir| - 1], u)
    ensures FullnameOf(dir, u) == FullnameOf(dir[..|dir| - 1], u)
  {
    if dir[0].username != u {
      assert dir[1..][..|dir| - 2] == dir[..|dir| - 1][1..];
      var i :| 0 <= i < |dir| - 1 && dir[i].username == u;
      assert dir[1..][..|dir| - 2][i - 1] == dir[i];
      FullnameOfPrefix(dir[1..], u);
    }
  }

  /**
   * Round trip: for every known user, reverse-mapping the display form gives
   * the username back, provided usernames hold no opening parenthesis.
   */
  lemma {:induction false} ReverseOfFormat(dir: Directory, u: string)
    requires IsDict(dir) && PlainUsernames(dir) && Known(dir, u)
    ensures FormatFullname(dir, u).Some?
    ensures FormatFullname(dir, u).value in ReverseTable(dir)
    ensures ReverseTable(dir)[FormatFullname(dir, u).value] == u
  {
    var n := |dir|;
    var e := dir[n - 1];
    var pre := dir[..n - 1];
    assert ReverseTable(dir) == ReverseTable(pre)[Display(e.fullname, e.username) := e.username];
    if e.username == u {
      FullnameOfLast(dir);
    } else {
      var i :| 0 <= i < n && dir[i].username == u;
      assert i < n - 1 && pre[i] == dir[i];
      assert Known(pre, u);
      assert IsDict(pre) && PlainUsernames(pre);
      FullnameOfPrefix(dir, u);
      ReverseOfFormat(pre, u);
      var d := FormatFullname(pre, u).value;
      assert '(' !in u && '(' !in e.username;
      ParseDisplay(e.fullname, e.username);
      assert ParseUsername(d) == Some(u);
      assert Display(e.fullname, e.username) != d;
    }
  }

  /**
   * The other direction: every display form in the reverse table belongs to
   * a known user, and formatting that user gives the display form back.
   */
  lemma {:induction false} FormatOfReverse(dir: Directory, d: string)
    requires IsDict(dir) && d in ReverseTable(dir)
    ensures Known(dir, ReverseTable(dir)[d])
    ensures FormatFullname(dir, ReverseTable(dir)[d]) == Some(d)
  {
    var n := |dir|;
    var e := dir[n - 1];
    var pre := dir[..n - 1];
    assert ReverseTable(dir) == ReverseTable(pre)[Display(e.fullname, e.username) := e.username];
    if d == Display(e.fullname, e.username) {
      FullnameOfLast(dir);
    } else {
      assert IsDict(pre);
      FormatOfReverse(pre, d);
      var u := ReverseTable(pre)[d];
      var i :| 0 <= i < n - 1 && pre[i].username == u;
      assert dir[i] == pre[i];
      FullnameOfPrefix(dir, u);
    }
  }
}
