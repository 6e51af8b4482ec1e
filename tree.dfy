/**
 * The sequence tree held by a `SequenceGroup`: named parameters with a text value and ordered
 * children. The group's own two entries, `Level` (the text box holding a dotted index path) and
 * `Remove` (the button), are ordinary tree nodes marked `reserved`; they are always the group's
 * last two children.
 */
module Tree {
  import opened Wrappers
  import opened Text

  datatype Node = Node(name: string, value: string, children: seq<Node>, reserved: bool)

  /** What the sequence-tree operations raise. */
  datatype Error =
    | NotAnInteger(text: string)   // `int(lvl)` raised ValueError
    | IndexOutOfRange(index: int)  // `children[k]` raised IndexError
    | DuplicateName(name: string)  // `insertChild` raised: a sibling already has that name
    | MissingField(line: string)   // a loaded line has fewer than three ':'-separated fields
    | EmptyStack                   // `sub_levels.pop()` on an empty list

  /** The node `addNew` creates. */
  function Leaf(name: string, value: string): (n: Node)
    ensures n.children == [] && !n.reserved
  {
    Node(name, value, [], false)
  }

  /** Which element `xs[k]` denotes in a Python list of length `n`, if any. */
  function PyIndex(k: int, n: nat): (r: Option<nat>)
    ensures r.Some? <==> -(n as int) <= k < n
    ensures r.Some? ==> r.value < n && (if k >= 0 then r.value == k else r.value == k + n)
  {
    if 0 <= k < n then Some(k) else if -(n as int) <= k < 0 then Some(k + n) else None
  }

  // ---------------------------------------------------------------- paths

  /** `path` leads, index by index, from the list `roots` down to an existing node. */
  predicate ValidPath(roots: seq<Node>, path: seq<nat>)
    decreases |path|
  {
    path == [] || (path[0] < |roots| && ValidPath(roots[path[0]].children, path[1..]))
  }

  /** The children of the node at `path`; the list `roots` itself for the empty path. */
  function KidsAt(roots: seq<Node>, path: seq<nat>): seq<Node>
    requires ValidPath(roots, path)
    decreases |path|
  {
    if path == [] then roots else KidsAt(roots[path[0]].children, path[1..])
  }

  /** `roots` with the children of the node at `path` replaced by `kids`. */
  function WithKidsAt(roots: seq<Node>, path: seq<nat>, kids: seq<Node>): (r: seq<Node>)
    requires ValidPath(roots, path)
    ensures path != [] ==> |r| == |roots|
    ensures ValidPath(r, path) && KidsAt(r, path) == kids
    decreases |path|
  {
    if path == [] then kids
    else
      var i := path[0];
      var n := roots[i];
      roots[i := n.(children := WithKidsAt(n.children, path[1..], kids))]
  }

  /** Only the node at the end of a non-empty path is changed; its name, value and flag stay. */
  lemma {:induction false} WithKidsAtTop(roots: seq<Node>, path: seq<nat>, kids: seq<Node>)
    requires ValidPath(roots, path) && path != []
    ensures var r := WithKidsAt(roots, path, kids);
      forall j :: 0 <= j < |roots| && j != path[0] ==> r[j] == roots[j]
    ensures var r := WithKidsAt(roots, path, kids);
      r[path[0]].name == roots[path[0]].name && r[path[0]].value == roots[path[0]].value
      && r[path[0]].reserved == roots[path[0]].reserved
  {
  }

  /** Putting back the children that are there changes nothing. */
  lemma {:induction false} WithKidsAtSame(roots: seq<Node>, path: seq<nat>)
    requires ValidPath(roots, path)
    ensures WithKidsAt(roots, path, KidsAt(roots, path)) == roots
    decreases |path|
  {
    if path != [] {
      WithKidsAtSame(roots[path[0]].children, path[1..]);
    }
  }

  /** Replacing twice at the same path keeps the second replacement. */
  lemma {:induction false} WithKidsAtTwice(roots: seq<Node>, path: seq<nat>, a: seq<Node>, b: seq<Node>)
    requires ValidPath(roots, path)
    ensures WithKidsAt(WithKidsAt(roots, path, a), path, b) == WithKidsAt(roots, path, b)
    decreases |path|
  {
    if path != [] {
      WithKidsAtTwice(roots[path[0]].children, path[1..], a, b);
    }
  }

  /** A valid path extended by the index of an existing child is valid, and leads to that child's children. */
  lemma {:induction false} ValidPathPrefix(roots: seq<Node>, path: seq<nat>, j: nat)
    requires ValidPath(roots, path) && j < |KidsAt(roots, path)|
    ensures ValidPath(roots, path + [j])
    ensures KidsAt(roots, path + [j]) == KidsAt(roots, path)[j].children
    decreases |path|
  {
    if path != [] {
      assert (path + [j])[1..] == path[1..] + [j];
      ValidPathPrefix(roots[path[0]].children, path[1..], j);
    }
  }

  /** `kids.insert(pos, x)`, for a position within the list. */
  function InsertAt(kids: seq<Node>, pos: nat, x: Node): (r: seq<Node>)
    requires pos <= |kids|
    ensures |r| == |kids| + 1 && r[pos] == x
    ensures forall j :: 0 <= j < pos ==> r[j] == kids[j]
    ensures forall j :: pos < j < |r| ==> r[j] == kids[j - 1]
  {
    kids[..pos] + [x] + kids[pos..]
  }

  /** `kids.remove(kids[idx])` */
  function DropAt(kids: seq<Node>, idx: nat): (r: seq<Node>)
    requires idx < |kids|
    ensures |r| == |kids| - 1
    ensures forall j :: 0 <= j < idx ==> r[j] == kids[j]
    ensures forall j :: idx <= j < |r| ==> r[j] == kids[j + 1]
  {
    kids[..idx] + kids[idx + 1..]
  }

  /** Dropping what was just inserted gives the list back. */
  lemma DropInserted(kids: seq<Node>, pos: nat, x: Node)
    requires pos <= |kids|
    ensures DropAt(InsertAt(kids, pos, x), pos) == kids
  {
    var r := DropAt(InsertAt(kids, pos, x), pos);
    assert forall j :: 0 <= j < |kids| ==> r[j] == kids[j];
  }

  // ---------------------------------------------------------------- shape of the group

  /** A node name that starts with the decimal position `i` and `": "`. */
  predicate Positioned(i: nat, name: string) {
    var p := NatToString(i) + ": ";
    |p| <= |name| && name[..|p|] == p
  }

  /**
   * A list of user-created nodes: none is reserved, the i-th is positioned at i, and the same
   * holds of every list of children below.
   */
  predicate WellFormed(kids: seq<Node>) {
    forall i :: 0 <= i < |kids| ==>
      !kids[i].reserved && Positioned(i, kids[i].name) && WellFormed(kids[i].children)
  }

  const LevelName: string := "Level"
  const RemoveName: string := "Remove"

  /**
   * The group's children: user-created nodes first, then `Level` and `Remove`; anything that
   * ended up below `Level` or `Remove` is user-created too.
   */
  predicate GroupShape(roots: seq<Node>) {
    && |roots| >= 2
    && WellFormed(roots[..|roots| - 2])
    && roots[|roots| - 2].name == LevelName && roots[|roots| - 2].reserved
    && roots[|roots| - 1].name == RemoveName && roots[|roots| - 1].reserved
    && WellFormed(roots[|roots| - 2].children)
    && WellFormed(roots[|roots| - 1].children)
  }

  /** The user-created part of the group's children. */
  function Users(roots: seq<Node>): (r: seq<Node>)
    requires |roots| >= 2
    ensures |r| == |roots| - 2
  {
    roots[..|roots| - 2]
  }

  /** Where `addNew` inserts below the node at `path`: before `Level` at the top, else at the end. */
  function InsertPos(roots: seq<Node>, path: seq<nat>): nat
    requires |roots| >= 2 && ValidPath(roots, path)
  {
    if path == [] then |roots| - 2 else |KidsAt(roots, path)|
  }

  /** The name of a sibling list, as a sequence. */
  function Names(kids: seq<Node>): (r: seq<string>)
    ensures |r| == |kids| && forall i :: 0 <= i < |kids| ==> r[i] == kids[i].name
  {
    seq(|kids|, i requires 0 <= i < |kids| => kids[i].name)
  }

  /** A name that no reserved node and no node positioned elsewhere can have. */
  lemma PositionedNamesDiffer(i: nat, j: nat, a: string, b: string)
    requires i != j && Positioned(i, a) && Positioned(j, b)
    ensures a != b
  {
    var p, q := NatToString(i) + ": ", NatToString(j) + ": ";
    assert a == NatToString(i) + ": " + a[|p|..] by { assert a == a[..|p|] + a[|p|..]; }
    assert b == NatToString(j) + ": " + b[|q|..] by { assert b == b[..|q|] + b[|q|..]; }
    NumberedPrefixesDiffer(i, j, a[|p|..], b[|q|..]);
  }

  /** Positioned names start with a digit, so they are never `Level` or `Remove`. */
  lemma PositionedNotReserved(i: nat, a: string)
    requires Positioned(i, a)
    ensures a != LevelName && a != RemoveName
  {
    var p := NatToString(i) + ": ";
    assert a[0] == p[0];
    assert IsDigit(p[0]);
  }

  /** Sibling names in a well-formed list are distinct. */
  lemma WellFormedDistinct(kids: seq<Node>)
    requires WellFormed(kids)
    ensures forall i, j :: 0 <= i < j < |kids| ==> kids[i].name != kids[j].name
  {
    forall i, j | 0 <= i < j < |kids| ensures kids[i].name != kids[j].name {
      PositionedNamesDiffer(i, j, kids[i].name, kids[j].name);
    }
  }

  /** A well-formed list stays well-formed when children deep inside are replaced by a well-formed list. */
  lemma {:induction false} WellFormedReplace(kids: seq<Node>, path: seq<nat>, repl: seq<Node>)
    requires WellFormed(kids) && ValidPath(kids, path) && WellFormed(repl)
    ensures WellFormed(WithKidsAt(kids, path, repl))
    decreases |path|
  {
    if path != [] {
      WellFormedReplace(kids[path[0]].children, path[1..], repl);
      WithKidsAtTop(kids, path, repl);
    }
  }

  /** The group keeps its shape when the children of some node below it are replaced by a well-formed list. */
  lemma GroupShapeReplace(roots: seq<Node>, path: seq<nat>, repl: seq<Node>)
    requires GroupShape(roots) && ValidPath(roots, path) && path != [] && WellFormed(repl)
    ensures GroupShape(WithKidsAt(roots, path, repl))
  {
    var i := path[0];
    var x := roots[i].(children := WithKidsAt(roots[i].children, path[1..], repl));
    if i < |roots| - 2 {
      assert Users(roots)[i] == roots[i];
    }
    WellFormedReplace(roots[i].children, path[1..], repl);
    GroupShapeSet(roots, i, x);
  }

  /** Replacing a child of the group by a well-formed node with the same name and flag keeps the group's shape. */
  lemma GroupShapeSet(roots: seq<Node>, i: nat, x: Node)
    requires GroupShape(roots) && i < |roots|
    requires x.name == roots[i].name && x.reserved == roots[i].reserved && WellFormed(x.children)
    ensures GroupShape(roots[i := x])
  {
    var n := |roots|;
    TakeUpdate(roots, i, x, n - 2);
    if i < n - 2 {
      WellFormedSet(Users(roots), i, x);
    }
  }

  /** Replacing a node by a well-formed one with the same name and flag keeps a list well-formed. */
  lemma WellFormedSet(kids: seq<Node>, i: nat, x: Node)
    requires WellFormed(kids) && i < |kids|
    requires x.name == kids[i].name && x.reserved == kids[i].reserved && WellFormed(x.children)
    ensures WellFormed(kids[i := x])
  {
  }

  /** Appending a node named after its position keeps a list well-formed. */
  lemma WellFormedAppend(kids: seq<Node>, typ: string, value: string)
    requires WellFormed(kids)
    ensures WellFormed(kids + [Leaf(NatToString(|kids|) + ": " + typ, value)])
  {
    var x := Leaf(NatToString(|kids|) + ": " + typ, value);
    var r := kids + [x];
    assert (NatToString(|kids|) + ": " + typ)[..|NatToString(|kids|) + ": "|] == NatToString(|kids|) + ": ";
    assert WellFormed(x.children);
    forall i | 0 <= i < |r| ensures !r[i].reserved && Positioned(i, r[i].name) && WellFormed(r[i].children) {
      if i < |kids| {
        assert r[i] == kids[i];
      }
    }
  }
}
