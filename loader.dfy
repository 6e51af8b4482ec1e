/**
 * `SequenceUI.input_sequence`: clearing the user-created entries of the group and rebuilding
 * them from the lines of a file written by `get_readable`, one `addNew` per line. The file's
 * lines are a parameter; opening and reading the file is not modelled.
 */
module Loader {
  import opened Wrappers
  import opened Text
  import opened Tree
  import opened Editing
  import opened Serial

  // ---------------------------------------------------------------- clearing

  /** What is left after `removeChild` on every child that is not one of the group's own entries. */
  function Clear(roots: seq<Node>): (r: seq<Node>)
    ensures forall i :: 0 <= i < |r| ==> r[i].reserved
  {
    if roots == [] then [] else (if roots[0].reserved then [roots[0]] else []) + Clear(roots[1..])
  }

  lemma {:induction false} ClearAppend(a: seq<Node>, b: seq<Node>)
    ensures Clear(a + b) == Clear(a) + Clear(b)
  {
    if a == [] {
      assert a + b == b;
    } else {
      assert (a + b)[1..] == a[1..] + b;
      ClearAppend(a[1..], b);
    }
  }

  lemma {:induction false} ClearUsers(kids: seq<Node>)
    requires forall i :: 0 <= i < |kids| ==> !kids[i].reserved
    ensures Clear(kids) == []
  {
    if kids != [] {
      ClearUsers(kids[1..]);
    }
  }

  /** Clearing leaves exactly `Level` and `Remove`, with whatever is below them. */
  lemma ClearShape(roots: seq<Node>)
    requires GroupShape(roots)
    ensures Clear(roots) == roots[|roots| - 2..]
    ensures GroupShape(Clear(roots))
  {
    var n := |roots|;
    var u, b := roots[..n - 2], roots[n - 2..];
    assert roots == u + b;
    ClearAppend(u, b);
    assert forall i :: 0 <= i < |u| ==> !u[i].reserved;
    ClearUsers(u);
    assert Clear(u) == [];
    ClearPair(b);
    assert Clear(roots) == b;
    ReservedShape(roots);
  }

  lemma ReservedShape(roots: seq<Node>)
    requires GroupShape(roots)
    ensures GroupShape(roots[|roots| - 2..])
  {
    var n := |roots|;
    var b := roots[n - 2..];
    assert b[0] == roots[n - 2] && b[1] == roots[n - 1];
    assert b[..0] == [];
    assert WellFormed(b[..0]);
  }

  lemma ClearPair(b: seq<Node>)
    requires |b| == 2 && b[0].reserved && b[1].reserved
    ensures Clear(b) == b
  {
    assert b[1..][1..] == [];
    assert Clear(b[1..]) == [b[1]];
    assert Clear(b) == [b[0]] + [b[1]];
  }

  // ---------------------------------------------------------------- reading the lines

  /** The loop variables `top_level`, `sub_levels` and `tabs`. */
  datatype Cursor = Cursor(top: int, subs: seq<int>, tabs: nat)

  const Start: Cursor := Cursor(-1, [], 0)

  /** `sub_levels[k] += 1` */
  function Bump(subs: seq<int>, k: int): Result<seq<int>, Error> {
    match PyIndex(k, |subs|)
    case None => Failure(IndexOutOfRange(k))
    case Some(j) => Success(subs[j := subs[j] + 1])
  }

  /** The update of `sub_levels` for a line with `newTabs` tabs after one indented by `tabs`. */
  function Indent(subs: seq<int>, tabs: nat, newTabs: nat): Result<seq<int>, Error> {
    if newTabs > tabs then Success(subs + [0])
    else if newTabs < tabs then
      if |subs| < tabs - newTabs then Failure(EmptyStack)
      else Bump(subs[..|subs| - (tabs - newTabs)], newTabs - 1)
    else Bump(subs, newTabs - 1)
  }

  /** The loop variables after `line` and the `level` handed to `addNew`, or what is raised. */
  function NextLevel(c: Cursor, line: string): Result<(Cursor, seq<string>), Error> {
    if |line| == 0 || line[0] != '\t' then Success((Cursor(c.top + 1, [], 0), ["x"]))
    else
      var newTabs := Count(line, '\t');
      match Indent(c.subs, c.tabs, newTabs)
      case Failure(e) => Failure(e)
      case Success(subs) =>
        var level := IntStrings([c.top] + subs);
        Success((Cursor(c.top, subs, newTabs), level[..|level| - 1] + ["x"]))
  }

  /** `typ` and `val`: the second and third ':'-separated fields of the line, stripped. */
  function Fields(line: string): Result<(string, string), Error> {
    var f := Split(line, ':');
    if |f| < 3 then Failure(MissingField(line)) else Success((Strip(f[1]), Strip(f[2])))
  }

  /** The loop of `input_sequence` from `c` over `lines`; the first exception stops it and keeps what was added. */
  function LoadRun(roots: seq<Node>, c: Cursor, lines: seq<string>): (seq<Node>, Outcome<Error>)
    requires GroupShape(roots)
    decreases |lines|
  {
    if lines == [] then (roots, Pass)
    else
      match NextLevel(c, lines[0])
      case Failure(e) => (roots, Fail(e))
      case Success((c', level)) =>
        match Fields(lines[0])
        case Failure(e) => (roots, Fail(e))
        case Success((typ, val)) =>
          WalkAtOk(roots, [], typ);
          AddNewKeepsShape(roots, WalkAt(roots, []), level, typ, val);
          var (roots', out) := AddNew(roots, typ, level, val);
          if out.Fail? then (roots', out) else LoadRun(roots', c', lines[1..])
  }

  /** `input_sequence()` on the group's children `roots` with the file's `lines`. */
  function Load(roots: seq<Node>, lines: seq<string>): (seq<Node>, Outcome<Error>)
    requires GroupShape(roots)
  {
    ClearShape(roots);
    LoadRun(Clear(roots), Start, lines)
  }

  /** Whatever the file holds, loading keeps the group's shape. */
  lemma {:induction false} LoadRunKeepsShape(roots: seq<Node>, c: Cursor, lines: seq<string>)
    requires GroupShape(roots)
    ensures GroupShape(LoadRun(roots, c, lines).0)
    decreases |lines|
  {
    if lines != [] && NextLevel(c, lines[0]).Success? && Fields(lines[0]).Success? {
      var (c', level) := NextLevel(c, lines[0]).value;
      var (typ, val) := Fields(lines[0]).value;
      WalkAtOk(roots, [], typ);
      AddNewKeepsShape(roots, WalkAt(roots, []), level, typ, val);
      var (roots', out) := AddNew(roots, typ, level, val);
      if out.Pass? {
        LoadRunKeepsShape(roots', c', lines[1..]);
      }
    }
  }

  // ---------------------------------------------------------------- the rightmost path

  /** The index path of the last top-level node, its last child, and so on down. */
  function RightPath(kids: seq<Node>): seq<nat>
    decreases kids
  {
    if kids == [] then [] else [|kids| - 1] + RightPath(kids[|kids| - 1].children)
  }

  lemma {:induction false} RightPathValid(kids: seq<Node>)
    ensures ValidPath(kids, RightPath(kids))
    decreases kids
  {
    if kids != [] {
      var n := |kids| - 1;
      RightPathValid(kids[n].children);
      assert RightPath(kids)[1..] == RightPath(kids[n].children);
    }
  }

  lemma {:induction false} ValidPathTake(kids: seq<Node>, path: seq<nat>, d: nat)
    requires ValidPath(kids, path) && d <= |path|
    ensures ValidPath(kids, path[..d])
    decreases |path|
  {
    if d > 0 {
      ValidPathTake(kids[path[0]].children, path[1..], d - 1);
      assert path[..d][1..] == path[1..][..d - 1];
    }
  }

  /** The first `d` steps of the rightmost path. */
  function Spine(kids: seq<Node>, d: nat): (p: seq<nat>)
    requires d <= |RightPath(kids)|
    ensures |p| == d && ValidPath(kids, p)
  {
    RightPathValid(kids);
    ValidPathTake(kids, RightPath(kids), d);
    RightPath(kids)[..d]
  }

  lemma SpineCons(kids: seq<Node>, d: nat)
    requires 1 <= d <= |RightPath(kids)|
    ensures kids != [] && Spine(kids, d) == [|kids| - 1] + Spine(kids[|kids| - 1].children, d - 1)
  {
  }

  /** `more` appended to the children at depth `d` of the rightmost path (to the list itself at depth 0). */
  function AtRight(kids: seq<Node>, d: nat, more: seq<Node>): seq<Node>
    requires d <= |RightPath(kids)|
  {
    var p := Spine(kids, d);
    WithKidsAt(kids, p, KidsAt(kids, p) + more)
  }

  lemma AtRightNothing(kids: seq<Node>, d: nat)
    requires d <= |RightPath(kids)|
    ensures AtRight(kids, d, []) == kids
  {
    var p := Spine(kids, d);
    assert KidsAt(kids, p) + [] == KidsAt(kids, p);
    WithKidsAtSame(kids, p);
  }

  /** Replacing the children at a point of the rightmost path makes the new children's rightmost path its continuation. */
  lemma {:induction false} RightPathWith(kids: seq<Node>, d: nat, repl: seq<Node>)
    requires d <= |RightPath(kids)|
    ensures RightPath(WithKidsAt(kids, Spine(kids, d), repl)) == Spine(kids, d) + RightPath(repl)
    decreases d
  {
    var p := Spine(kids, d);
    if d > 0 {
      SpineCons(kids, d);
      var n := |kids| - 1;
      var r := WithKidsAt(kids, p, repl);
      assert r[n].children == WithKidsAt(kids[n].children, p[1..], repl);
      RightPathWith(kids[n].children, d - 1, repl);
    }
  }

  /** Each step of the rightmost path takes the last child, and it ends at a node without children. */
  lemma {:induction false} RightPathLast(kids: seq<Node>, d: nat)
    requires d <= |RightPath(kids)|
    ensures d < |RightPath(kids)| ==> RightPath(kids)[d] + 1 == |KidsAt(kids, Spine(kids, d))|
    ensures d == |RightPath(kids)| ==> KidsAt(kids, Spine(kids, d)) == []
    decreases d
  {
    if d > 0 {
      SpineCons(kids, d);
      var n := |kids| - 1;
      RightPathLast(kids[n].children, d - 1);
    }
  }

  lemma {:induction false} WithKidsAtExtend(kids: seq<Node>, p: seq<nat>, repl: seq<Node>, j: nat, below: seq<Node>)
    requires ValidPath(kids, p) && j < |repl|
    ensures ValidPath(WithKidsAt(kids, p, repl), p + [j])
    ensures WithKidsAt(WithKidsAt(kids, p, repl), p + [j], below)
      == WithKidsAt(kids, p, repl[j := repl[j].(children := below)])
    decreases |p|
  {
    ValidPathPrefix(WithKidsAt(kids, p, repl), p, j);
    if p == [] {
      assert [j][1..] == [];
    } else {
      assert (p + [j])[1..] == p[1..] + [j];
      WithKidsAtExtend(kids[p[0]].children, p[1..], repl, j, below);
    }
  }

  /** Appending twice at the same depth appends both lists. */
  lemma AtRightTwice(kids: seq<Node>, d: nat, a: seq<Node>, b: seq<Node>)
    requires d <= |RightPath(kids)|
    ensures d <= |RightPath(AtRight(kids, d, a))|
    ensures AtRight(AtRight(kids, d, a), d, b) == AtRight(kids, d, a + b)
  {
    var p := Spine(kids, d);
    var l := KidsAt(kids, p);
    var k1 := AtRight(kids, d, a);
    RightPathWith(kids, d, l + a);
    assert Spine(k1, d) == p;
    WithKidsAtTwice(kids, p, l + a, l + a + b);
    assert l + a + b == l + (a + b);
  }

  /** Appending below a node just appended at depth `d` is appending that node with the extra children. */
  lemma AtRightNested(kids: seq<Node>, d: nat, x: Node, more: seq<Node>)
    requires d <= |RightPath(kids)| && x.children == []
    ensures d + 1 <= |RightPath(AtRight(kids, d, [x]))|
    ensures AtRight(AtRight(kids, d, [x]), d + 1, more) == AtRight(kids, d, [x.(children := more)])
  {
    var p := Spine(kids, d);
    var l := KidsAt(kids, p);
    var k1 := AtRight(kids, d, [x]);
    RightPathWith(kids, d, l + [x]);
    assert (l + [x])[|l|] == x;
    assert RightPath(l + [x]) == [|l|] + RightPath(x.children);
    assert Spine(k1, d + 1) == p + [|l|];
    WithKidsAtExtend(kids, p, l + [x], |l|, KidsAt(k1, p + [|l|]) + more);
    ValidPathPrefix(k1, p, |l|);
    assert x.children + more == more;
    assert (l + [x])[|l| := x.(children := more)] == l + [x.(children := more)];
  }

  /** Below the user-created entries, paths and replacements ignore `Level` and `Remove`. */
  lemma BaseApart(kids: seq<Node>, base: seq<Node>, p: seq<nat>, repl: seq<Node>)
    requires ValidPath(kids, p) && p != []
    ensures ValidPath(kids + base, p) && KidsAt(kids + base, p) == KidsAt(kids, p)
    ensures WithKidsAt(kids + base, p, repl) == WithKidsAt(kids, p, repl) + base
  {
    assert (kids + base)[p[0]] == kids[p[0]];
  }

  // ---------------------------------------------------------------- what a saved tree loads back as

  /** The loop variables after reading the lines of the forest `kids`: they follow its rightmost path. */
  function CursorOf(kids: seq<Node>): Cursor {
    if kids == [] then Start
    else
      var p := RightPath(kids);
      Cursor(|kids| - 1, p[1..], |p| - 1)
  }

  /**
   * A line of `d` tabs adds a node at depth `d` of the rightmost path: `sub_levels` names its
   * parent, and `level` leads there and ends in `"x"`.
   */
  lemma NextLevelFollows(kids: seq<Node>, d: nat, x: Node, line: string)
    requires d <= |RightPath(kids)| && x.children == []
    requires Count(line, '\t') == d && ((|line| > 0 && line[0] == '\t') <==> d > 0)
    ensures d <= |RightPath(AtRight(kids, d, [x]))|
    ensures NextLevel(CursorOf(kids), line) == Success((CursorOf(AtRight(kids, d, [x])), IntStrings(Spine(kids, d)) + ["x"]))
  {
    var p := Spine(kids, d);
    var l := KidsAt(kids, p);
    RightPathAppended(kids, d, x);
    if d > 0 {
      var r := RightPath(kids);
      RightPathLast(kids, d);
      IndentFollows(r, d, |l|);
      LevelFollows(|kids| - 1, r, d, |l|);
      DropFirstSnoc(r, d, |l|);
    } else {
      AppendEmpty(["x"]);
    }
  }

  /** A leaf appended at depth `d` ends the new rightmost path, one step below the old spine. */
  lemma RightPathAppended(kids: seq<Node>, d: nat, x: Node)
    requires d <= |RightPath(kids)| && x.children == []
    ensures RightPath(AtRight(kids, d, [x])) == Spine(kids, d) + [|KidsAt(kids, Spine(kids, d))|]
  {
    var l := KidsAt(kids, Spine(kids, d));
    RightPathWith(kids, d, l + [x]);
    assert (l + [x])[|l|] == x;
  }

  lemma DropFirstSnoc(r: seq<nat>, d: nat, last: nat)
    requires 1 <= d <= |r|
    ensures (r[..d] + [last])[1..] == r[1..d] + [last]
  {
  }

  /** How `sub_levels` moves from the last step of one rightmost path to that of the next. */
  lemma IndentFollows(r: seq<nat>, d: nat, last: nat)
    requires 1 <= d <= |r|
    requires d < |r| ==> r[d] + 1 == last
    requires d == |r| ==> last == 0
    ensures Indent(r[1..], |r| - 1, d) == Success(r[1..d] + [last])
  {
    var subs := r[1..];
    if d == |r| {
      assert r[1..d] == subs;
    } else if d < |r| - 1 {
      assert subs[..|subs| - (|r| - 1 - d)] == r[1..d + 1];
      assert r[1..d + 1][d - 1 := r[d] + 1] == r[1..d] + [last];
    } else {
      assert subs[d - 1 := r[d] + 1] == r[1..d] + [last];
    }
  }

  /** The `level` built from `top_level` and `sub_levels` names the parent and ends in `"x"`. */
  lemma LevelFollows(top: int, r: seq<nat>, d: nat, last: nat)
    requires 1 <= d <= |r| && r[0] == top
    ensures var level := IntStrings([top] + (r[1..d] + [last]));
      level[..|level| - 1] + ["x"] == IntStrings(r[..d]) + ["x"]
  {
    var level := IntStrings([top] + (r[1..d] + [last]));
    assert [top] + r[1..d] == r[..d];
    assert level[..|level| - 1] == IntStrings(r[..d]);
  }

  /**
   * Text that survives a save and a load: no field separator, tab, line feed or carriage return
   * (text-mode `readlines` ends a line at either), and no white space at either end.
   */
  predicate Clean(s: string) {
    ':' !in s && '\t' !in s && '\n' !in s && '\r' !in s && Trimmed(s)
  }

  /**
   * User-created nodes as `addNew` labels them, from position `m` on, with clean tags and
   * values, and the same all the way down.
   */
  predicate Savable(kids: seq<Node>, m: nat) {
    forall i :: 0 <= i < |kids| ==>
      && !kids[i].reserved
      && kids[i].name == NewName(m + i, TagOf(kids[i].name))
      && Clean(TagOf(kids[i].name)) && Clean(kids[i].value)
      && Savable(kids[i].children, 0)
  }

  /** The line `get_readable` writes for a labelled node splits back into its tag and its value. */
  lemma LineFields(i: nat, tag: string, value: string, children: seq<Node>, d: nat)
    requires Clean(tag) && Clean(value)
    ensures var n := Node(NewName(i, tag), value, children, false);
      Fields(Line(n, d)) == Success((tag, value))
  {
    var n := Node(NewName(i, tag), value, children, false);
    var a := Tabs(d) + NatToString(i);
    var b := " " + tag;
    var c := " " + value + "\n";
    assert ':' !in a by { assert AllDigits(NatToString(i)); }
    assert Line(n, d) == a + [':'] + (b + [':'] + c);
    SplitAt(a, b + [':'] + c, ':');
    SplitAt(b, c, ':');
    SplitAbsent(c, ':');
    StripPadded(tag);
    StripPadded(value);
  }

  /** That line has exactly `d` tabs, starts with one exactly when `d > 0`, and ends at its only line break. */
  lemma LineShape(i: nat, tag: string, value: string, children: seq<Node>, d: nat)
    requires Clean(tag) && Clean(value)
    ensures var line := Line(Node(NewName(i, tag), value, children, false), d);
      Count(line, '\t') == d && ((|line| > 0 && line[0] == '\t') <==> d > 0) && IsLine(line)
  {
    var digits := NatToString(i);
    var rest := digits + ": " + tag + ": " + value;
    var line := Line(Node(NewName(i, tag), value, children, false), d);
    assert AllDigits(digits);
    assert '\t' !in rest && '\n' !in rest;
    assert line == Tabs(d) + rest + "\n";
    CountConcat(Tabs(d) + rest, "\n", '\t');
    CountConcat(Tabs(d), rest, '\t');
    CountAbsent(rest, '\t');
    CountAbsent("\n", '\t');
    assert Count(Tabs(d), '\t') == d by { TabsCount(d); }
    assert line[0] == (if d > 0 then '\t' else digits[0]);
    assert line[..|line| - 1] == Tabs(d) + rest;
  }

  lemma {:induction false} TabsCount(d: nat)
    ensures Count(Tabs(d), '\t') == d
  {
    if d > 0 {
      assert Tabs(d)[1..] == Tabs(d - 1);
      TabsCount(d - 1);
    }
  }

  /** `addNew` with the level of a line of `d` tabs appends the node at depth `d` of the rightmost path. */
  lemma AddNewAppends(kids: seq<Node>, base: seq<Node>, d: nat, tag: string, value: string)
    requires |base| == 2 && GroupShape(kids + base) && d <= |RightPath(kids)|
    ensures var m := |KidsAt(kids, Spine(kids, d))|;
      var r := AtRight(kids, d, [Leaf(NewName(m, tag), value)]);
      && GroupShape(r + base)
      && AddNew(kids + base, tag, IntStrings(Spine(kids, d)) + ["x"], value) == (r + base, Pass)
  {
    var roots := kids + base;
    var p := Spine(kids, d);
    var l := KidsAt(kids, p);
    var x := Leaf(NewName(|l|, tag), value);
    assert Users(roots) == kids;
    if p != [] {
      BaseApart(kids, base, p, InsertAt(l, |l|, x));
    }
    assert [] + p == p;
    ResolveWritten(roots, [], p);
    AddNewAt(roots, [], IntStrings(p), tag, value);
    NewNameFree(roots, p, tag);
    InsertKeepsShape(roots, p, tag, value);
    assert InsertPos(roots, p) == |l|;
    if p == [] {
      assert InsertAt(roots, |kids|, x) == kids + [x] + base;
    } else {
      assert InsertAt(l, |l|, x) == l + [x];
    }
  }

  /** One line written for a labelled node at depth `d` makes `input_sequence` append that node there. */
  lemma LoadLine(kids: seq<Node>, base: seq<Node>, d: nat, k: Node, rest: seq<string>)
    requires |base| == 2 && GroupShape(kids + base) && d <= |RightPath(kids)|
    requires !k.reserved && Clean(TagOf(k.name)) && Clean(k.value)
    requires k.name == NewName(|KidsAt(kids, Spine(kids, d))|, TagOf(k.name))
    ensures var r := AtRight(kids, d, [Leaf(k.name, k.value)]);
      && d <= |RightPath(r)| && GroupShape(r + base)
      && LoadRun(kids + base, CursorOf(kids), [Line(k, d)] + rest) == LoadRun(r + base, CursorOf(r), rest)
  {
    var tag := TagOf(k.name);
    var m := |KidsAt(kids, Spine(kids, d))|;
    var x := Leaf(k.name, k.value);
    var line := Line(k, d);
    assert k == Node(NewName(m, tag), k.value, k.children, false);
    LineShape(m, tag, k.value, k.children, d);
    LineFields(m, tag, k.value, k.children, d);
    NextLevelFollows(kids, d, x, line);
    AddNewAppends(kids, base, d, tag, k.value);
    assert ([line] + rest)[1..] == rest;
  }

  /** Below a node just appended at depth `d` there is the empty list at depth `d + 1`. */
  lemma BelowAppended(kids: seq<Node>, d: nat, x: Node)
    requires d <= |RightPath(kids)| && x.children == []
    ensures var r := AtRight(kids, d, [x]);
      d + 1 <= |RightPath(r)| && KidsAt(r, Spine(r, d + 1)) == []
  {
    var p := Spine(kids, d);
    var l := KidsAt(kids, p);
    var r := AtRight(kids, d, [x]);
    RightPathWith(kids, d, l + [x]);
    assert (l + [x])[|l|] == x;
    assert RightPath(l + [x]) == [|l|] + RightPath(x.children);
    assert Spine(r, d + 1) == p + [|l|];
    ValidPathPrefix(r, p, |l|);
  }

  /** After appending one node at depth `d`, the list at depth `d` of the rightmost path is one longer. */
  lemma BesideAppended(kids: seq<Node>, d: nat, k: Node)
    requires d <= |RightPath(kids)|
    ensures var r := AtRight(kids, d, [k]);
      d <= |RightPath(r)| && |KidsAt(r, Spine(r, d))| == |KidsAt(kids, Spine(kids, d))| + 1
  {
    var p := Spine(kids, d);
    RightPathWith(kids, d, KidsAt(kids, p) + [k]);
    assert Spine(AtRight(kids, d, [k]), d) == p;
  }

  lemma SavableTail(f: seq<Node>, m: nat)
    requires Savable(f, m) && f != []
    ensures Savable(f[1..], m + 1) && Savable(f[0].children, 0)
  {
    forall i | 0 <= i < |f[1..]| ensures f[1..][i] == f[i + 1] { }
  }

  lemma PreorderLines(f: seq<Node>, d: nat, rest: seq<string>)
    requires f != []
    ensures Formatted(Preorder(f, d)) + rest
      == [Line(f[0], d)] + (Formatted(Preorder(f[0].children, d + 1)) + (Formatted(Preorder(f[1..], d)) + rest))
  {
    var k := f[0];
    var line, below, beside := [Line(k, d)], Formatted(Preorder(k.children, d + 1)), Formatted(Preorder(f[1..], d));
    FormattedAppend([(d, k)] + Preorder(k.children, d + 1), Preorder(f[1..], d));
    FormattedAppend([(d, k)], Preorder(k.children, d + 1));
    assert Formatted([(d, k)]) == line;
    AppendAssoc(line + below, beside, rest);
    AppendAssoc(line, below, beside + rest);
  }

  /**
   * The lines written for a labelled forest `f` at depth `d` append `f` at depth `d` of the
   * rightmost path, node by node in pre-order, and leave the loop variables following the new
   * rightmost path.
   */
  lemma {:induction false} LoadForest(kids: seq<Node>, base: seq<Node>, d: nat, f: seq<Node>, rest: seq<string>)
    requires |base| == 2 && GroupShape(kids + base) && d <= |RightPath(kids)|
    requires Savable(f, |KidsAt(kids, Spine(kids, d))|)
    ensures var r := AtRight(kids, d, f);
      && d <= |RightPath(r)| && GroupShape(r + base)
      && LoadRun(kids + base, CursorOf(kids), Formatted(Preorder(f, d)) + rest) == LoadRun(r + base, CursorOf(r), rest)
    decreases f, 1
  {
    if f == [] {
      AtRightNothing(kids, d);
      assert Formatted(Preorder(f, d)) + rest == rest;
    } else {
      LoadTrees(kids, base, d, f, rest);
    }
  }

  /** `LoadForest` for a forest with a first tree: that tree's lines, then its siblings'. */
  lemma {:induction false} LoadTrees(kids: seq<Node>, base: seq<Node>, d: nat, f: seq<Node>, rest: seq<string>)
    requires |base| == 2 && GroupShape(kids + base) && d <= |RightPath(kids)|
    requires Savable(f, |KidsAt(kids, Spine(kids, d))|) && f != []
    ensures var r := AtRight(kids, d, f);
      && d <= |RightPath(r)| && GroupShape(r + base)
      && LoadRun(kids + base, CursorOf(kids), Formatted(Preorder(f, d)) + rest) == LoadRun(r + base, CursorOf(r), rest)
    decreases f, 0
  {
    var k := f[0];
    var siblings := Formatted(Preorder(f[1..], d)) + rest;
    var m := |KidsAt(kids, Spine(kids, d))|;
    PreorderLines(f, d, rest);
    SavableTail(f, m);
    LoadTree(kids, base, d, k, siblings);
    BesideAppended(kids, d, k);
    var r1 := AtRight(kids, d, [k]);
    assert |KidsAt(r1, Spine(r1, d))| == m + 1;
    LoadForest(r1, base, d, f[1..], rest);
    AtRightTwice(kids, d, [k], f[1..]);
    FirstRest(f);
  }

  /** The lines written for one labelled tree append it at depth `d` of the rightmost path. */
  lemma {:induction false} LoadTree(kids: seq<Node>, base: seq<Node>, d: nat, k: Node, rest: seq<string>)
    requires |base| == 2 && GroupShape(kids + base) && d <= |RightPath(kids)|
    requires !k.reserved && Clean(TagOf(k.name)) && Clean(k.value) && Savable(k.children, 0)
    requires k.name == NewName(|KidsAt(kids, Spine(kids, d))|, TagOf(k.name))
    ensures var r := AtRight(kids, d, [k]);
      && d <= |RightPath(r)| && GroupShape(r + base)
      && LoadRun(kids + base, CursorOf(kids), [Line(k, d)] + (Formatted(Preorder(k.children, d + 1)) + rest))
         == LoadRun(r + base, CursorOf(r), rest)
    decreases k
  {
    var x := Leaf(k.name, k.value);
    LoadLine(kids, base, d, k, Formatted(Preorder(k.children, d + 1)) + rest);
    BelowAppended(kids, d, x);
    LoadForest(AtRight(kids, d, [x]), base, d + 1, k.children, rest);
    AtRightNested(kids, d, x, k.children);
  }

  /** Items each written as one terminated line. */
  predicate Whole(items: seq<(nat, Node)>) {
    forall j :: 0 <= j < |items| ==> IsLine(Line(items[j].1, items[j].0))
  }

  lemma WholeAppend(a: seq<(nat, Node)>, b: seq<(nat, Node)>)
    requires Whole(a) && Whole(b)
    ensures Whole(a + b)
  {
    forall j | 0 <= j < |a + b| ensures IsLine(Line((a + b)[j].1, (a + b)[j].0)) {
      if j >= |a| {
        assert (a + b)[j] == b[j - |a|];
      }
    }
  }

  /** Every line written for a labelled forest is a single line the reader gives back whole. */
  lemma {:induction false} PreorderWhole(f: seq<Node>, m: nat, d: nat)
    requires Savable(f, m)
    ensures Whole(Preorder(f, d))
    decreases f
  {
    if f != [] {
      var k := f[0];
      SavableTail(f, m);
      PreorderWhole(k.children, 0, d + 1);
      PreorderWhole(f[1..], m + 1, d);
      assert k == Node(NewName(m, TagOf(k.name)), k.value, k.children, false);
      LineShape(m, TagOf(k.name), k.value, k.children, d);
      assert Whole([(d, k)]);
      WholeAppend([(d, k)], Preorder(k.children, d + 1));
      WholeAppend([(d, k)] + Preorder(k.children, d + 1), Preorder(f[1..], d));
    }
  }

  /** Reading back what `get_readable` wrote for labelled nodes gives its lines one by one. */
  lemma ReadSaved(roots: seq<Node>)
    requires GroupShape(roots) && Savable(Users(roots), 0)
    ensures ReadLines(GetReadable(roots)) == Formatted(Preorder(Users(roots), 0))
  {
    var items := Preorder(Users(roots), 0);
    ReadableIsPreorder(roots);
    PreorderWhole(Users(roots), 0, 0);
    ReadLinesConcat(Formatted(items));
  }

  /** Loading reads the lines into `Level` and `Remove` alone. */
  lemma LoadFromBase(roots: seq<Node>, lines: seq<string>)
    requires GroupShape(roots)
    ensures GroupShape(roots[|roots| - 2..])
    ensures Load(roots, lines) == LoadRun(roots[|roots| - 2..], Start, lines)
  {
    ClearShape(roots);
  }

  /** The saved lines of labelled nodes, followed by anything, rebuild those nodes before the rest is read. */
  lemma LoadSaved(roots: seq<Node>, rest: seq<string>)
    requires GroupShape(roots) && Savable(Users(roots), 0)
    ensures Load(roots, Formatted(Preorder(Users(roots), 0)) + rest) == LoadRun(roots, CursorOf(Users(roots)), rest)
  {
    var u, base := Users(roots), roots[|roots| - 2..];
    var lines := Formatted(Preorder(u, 0)) + rest;
    LoadFromBase(roots, lines);
    AppendEmpty(base);
    AppendEmpty(u);
    TakeDrop(roots, |roots| - 2);
    LoadForest([], base, 0, u, rest);
  }

  /**
   * Loading the file `get_readable` wrote gives back the same children, provided every user
   * node is labelled by its position as `addNew` labels it and its tag and value hold no ':',
   * tab or line break and no surrounding white space.
   */
  lemma SaveThenLoad(roots: seq<Node>)
    requires GroupShape(roots) && Savable(Users(roots), 0)
    ensures Load(roots, ReadLines(GetReadable(roots))) == (roots, Pass)
  {
    ReadSaved(roots);
    LoadSaved(roots, []);
    assert Formatted(Preorder(Users(roots), 0)) + [] == Formatted(Preorder(Users(roots), 0));
  }

  /**
   * Loading stops at the first line it cannot split into three fields and keeps the nodes the
   * lines before it added: here the whole saved tree, whatever follows the bad line.
   */
  lemma LoadStopsAtBadLine(roots: seq<Node>, bad: string, more: seq<string>)
    requires GroupShape(roots) && Savable(Users(roots), 0)
    requires ':' !in bad && (bad == [] || bad[0] != '\t')
    ensures Load(roots, ReadLines(GetReadable(roots)) + [bad] + more) == (roots, Fail(MissingField(bad)))
  {
    var lines := Formatted(Preorder(Users(roots), 0));
    ReadSaved(roots);
    LoadSaved(roots, [bad] + more);
    AppendAssoc(lines, [bad], more);
    SplitAbsent(bad, ':');
    assert ([bad] + more)[0] == bad;
  }
}
