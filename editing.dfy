/**
 * What `SequenceGroup.addNew` and `SequenceGroup.remove_child` do to the group's children, as
 * functions of the children before the call. The methods of `Groups.SequenceGroup` run the
 * same steps in loops and are proved equal to these functions.
 */
module Editing {
  import opened Wrappers
  import opened Text
  import opened Tree

  // ---------------------------------------------------------------- addNew

  /**
   * The variables of `addNew`'s loop. `child` is the node at `path` (the group itself for the
   * empty path); `children` is the list read from it before anything was inserted there, of
   * length `snapLen`; `insert_pos` and `insert_level` are both `pos`; `inserted` records that a
   * node has since been inserted into `child` at `pos`, so that `children` is one short.
   */
  datatype Walk = Walk(path: seq<nat>, snapLen: nat, pos: nat, inserted: bool)

  /** The loop variables right after `children = child.children()` for the node at `path`. */
  function WalkAt(roots: seq<Node>, path: seq<nat>): Walk
    requires |roots| >= 2 && ValidPath(roots, path)
  {
    Walk(path, |KidsAt(roots, path)|, InsertPos(roots, path), false)
  }

  /** The name `addNew` gives the node it inserts at position `pos`. */
  function NewName(pos: nat, typ: string): string {
    NatToString(pos) + ": " + typ
  }

  /** What holds of the loop variables at every iteration. */
  predicate WalkOk(roots: seq<Node>, w: Walk, typ: string) {
    && |roots| >= 2
    && ValidPath(roots, w.path)
    && (if w.path == [] then w.snapLen >= 2 && w.pos == w.snapLen - 2 else w.pos == w.snapLen)
    && |KidsAt(roots, w.path)| == w.snapLen + (if w.inserted then 1 else 0)
    && (w.inserted ==> KidsAt(roots, w.path)[w.pos].name == NewName(w.pos, typ))
  }

  /** One iteration of `addNew`'s loop, for the path segment `seg`. */
  function AddNewStep(roots: seq<Node>, w: Walk, seg: string, typ: string, val: string)
    : (r: Result<(seq<Node>, Walk), Error>)
    requires WalkOk(roots, w, typ)
    ensures r.Success? ==> WalkOk(r.value.0, r.value.1, typ)
  {
    if seg == "x" then
      var kids := KidsAt(roots, w.path);
      var name := NewName(w.pos, typ);
      if name in Names(kids) then Failure(DuplicateName(name))
      else
        var roots' := WithKidsAt(roots, w.path, InsertAt(kids, w.pos, Leaf(name, val)));
        Success((roots', w.(inserted := true)))
    else
      match ParseInt(seg)
      case None => Failure(NotAnInteger(seg))
      case Some(k) =>
        match PyIndex(k, w.snapLen)
        case None => Failure(IndexOutOfRange(k))
        case Some(j) =>
          var live := if w.inserted && j >= w.pos then j + 1 else j;
          ValidPathPrefix(roots, w.path, live);
          Success((roots, WalkAt(roots, w.path + [live])))
  }

  /** The rest of `addNew`'s loop; an exception stops it and keeps what was inserted so far. */
  function AddNewRun(roots: seq<Node>, w: Walk, segs: seq<string>, typ: string, val: string)
    : (seq<Node>, Outcome<Error>)
    requires WalkOk(roots, w, typ)
    decreases |segs|
  {
    if segs == [] then (roots, Pass)
    else
      match AddNewStep(roots, w, segs[0], typ, val)
      case Failure(e) => (roots, Fail(e))
      case Success((roots', w')) => AddNewRun(roots', w', segs[1..], typ, val)
  }

  /** `addNew(typ, level, val)` applied to the group's children `roots`. */
  function AddNew(roots: seq<Node>, typ: string, level: seq<string>, val: string): (seq<Node>, Outcome<Error>)
    requires |roots| >= 2
  {
    AddNewRun(roots, WalkAt(roots, []), level, typ, val)
  }

  // ---------------------------------------------------------------- index paths

  /**
   * `child = children[int(lvl)]; children = child.children()` for each segment, from the node
   * at `path`, in a tree that does not change meanwhile: the index path reached, or what is raised.
   */
  function ResolveFrom(roots: seq<Node>, path: seq<nat>, segs: seq<string>): (r: Result<seq<nat>, Error>)
    requires ValidPath(roots, path)
    ensures r.Success? ==> ValidPath(roots, r.value) && |r.value| == |path| + |segs| && r.value[..|path|] == path
    decreases |segs|
  {
    if segs == [] then Success(path)
    else
      match ParseInt(segs[0])
      case None => Failure(NotAnInteger(segs[0]))
      case Some(k) =>
        match PyIndex(k, |KidsAt(roots, path)|)
        case None => Failure(IndexOutOfRange(k))
        case Some(j) =>
          ValidPathPrefix(roots, path, j);
          var r := ResolveFrom(roots, path + [j], segs[1..]);
          assert r.Success? ==> r.value[..|path|] == (r.value[..|path| + 1])[..|path|];
          r
  }

  lemma ParseIntX()
    ensures ParseInt("x") == None
  {
    var x := "x";
    assert !IsSpace(x[0]);
    StripTrimmed(x);
  }

  /** The text of an index path, as `remove_child` and the loader hand it over. */
  lemma {:induction false} ResolveWritten(roots: seq<Node>, path: seq<nat>, rest: seq<nat>)
    requires ValidPath(roots, path + rest)
    ensures ValidPath(roots, path)
    ensures ResolveFrom(roots, path, IntStrings(rest)) == Success(path + rest)
    decreases |rest|
  {
    if rest == [] {
      assert path + rest == path;
    } else {
      var j := rest[0];
      assert path + rest == (path + [j]) + rest[1..];
      ResolveWritten(roots, path + [j], rest[1..]);
      ValidPathParent(roots, path + [j]);
      assert (path + [j])[..|path|] == path;
      IntToStringRoundTrip(j);
      assert IntStrings(rest)[1..] == IntStrings(rest[1..]);
    }
  }

  /** A valid path ends at an existing child of the node its prefix leads to. */
  lemma {:induction false} ValidPathParent(roots: seq<Node>, path: seq<nat>)
    requires ValidPath(roots, path) && path != []
    ensures ValidPath(roots, path[..|path| - 1])
    ensures path[|path| - 1] < |KidsAt(roots, path[..|path| - 1])|
    ensures KidsAt(roots, path) == KidsAt(roots, path[..|path| - 1])[path[|path| - 1]].children
    decreases |path|
  {
    if |path| > 1 {
      assert path[1..][..|path[1..]| - 1] == path[..|path| - 1][1..];
      ValidPathParent(roots[path[0]].children, path[1..]);
    }
  }

  // ---------------------------------------------------------------- addNew: properties

  /** The loop invariant holds when the loop starts. */
  lemma WalkAtOk(roots: seq<Node>, path: seq<nat>, typ: string)
    requires |roots| >= 2 && ValidPath(roots, path)
    ensures WalkOk(roots, WalkAt(roots, path), typ)
  {
  }

  /**
   * With numeric segments that lead to an existing node and a final `"x"`, `addNew` inserts one
   * node named `"<k>: <typ>"` holding `val` as the k-th child of that node, where k is the number
   * of its children other than `Level` and `Remove`; only a name clash makes it raise instead,
   * and then nothing has changed.
   */
  lemma {:induction false} AddNewAt(roots: seq<Node>, path: seq<nat>, segs: seq<string>, typ: string, val: string)
    requires |roots| >= 2 && ValidPath(roots, path)
    requires ResolveFrom(roots, path, segs).Success?
    ensures var target := ResolveFrom(roots, path, segs).value;
      var pos := InsertPos(roots, target);
      var kids := KidsAt(roots, target);
      AddNewRun(roots, WalkAt(roots, path), segs + ["x"], typ, val) ==
        if NewName(pos, typ) in Names(kids) then (roots, Fail(DuplicateName(NewName(pos, typ))))
        else (WithKidsAt(roots, target, InsertAt(kids, pos, Leaf(NewName(pos, typ), val))), Pass)
    decreases |segs|
  {
    var w := WalkAt(roots, path);
    if segs == [] {
      AppendEmpty(["x"]);
    } else {
      ParseIntX();
      var k := ParseInt(segs[0]).value;
      var j := PyIndex(k, w.snapLen).value;
      ValidPathPrefix(roots, path, j);
      assert AddNewStep(roots, w, segs[0], typ, val) == Success((roots, WalkAt(roots, path + [j])));
      TailAppend(segs, ["x"]);
      AddNewAt(roots, path + [j], segs[1..], typ, val);
    }
  }

  /** When a segment before the final one is not an integer or is out of range, `addNew` raises that and changes nothing. */
  lemma {:induction false} AddNewFails(roots: seq<Node>, path: seq<nat>, segs: seq<string>, rest: seq<string>, typ: string, val: string)
    requires |roots| >= 2 && ValidPath(roots, path)
    requires ResolveFrom(roots, path, segs).Failure?
    requires forall i :: 0 <= i < |segs| ==> segs[i] != "x"
    ensures AddNewRun(roots, WalkAt(roots, path), segs + rest, typ, val)
      == (roots, Fail(ResolveFrom(roots, path, segs).error))
    decreases |segs|
  {
    var w := WalkAt(roots, path);
    assert (segs + rest)[0] == segs[0];
    match ParseInt(segs[0])
    case None =>
    case Some(k) =>
      match PyIndex(k, w.snapLen)
      case None =>
      case Some(j) =>
        ValidPathPrefix(roots, path, j);
        assert (segs + rest)[1..] == segs[1..] + rest;
        AddNewFails(roots, path + [j], segs[1..], rest, typ, val);
  }

  /** In the group's shape, the children of any node other than the group are user-created and well-formed. */
  lemma {:induction false} KidsWellFormed(roots: seq<Node>, path: seq<nat>)
    requires GroupShape(roots) && ValidPath(roots, path) && path != []
    ensures WellFormed(KidsAt(roots, path))
  {
    var i := path[0];
    if i < |roots| - 2 {
      assert roots[i] == Users(roots)[i];
    }
    WellFormedBelow(roots[i].children, path[1..]);
  }

  lemma {:induction false} WellFormedBelow(kids: seq<Node>, path: seq<nat>)
    requires WellFormed(kids) && ValidPath(kids, path)
    ensures WellFormed(KidsAt(kids, path))
    decreases |path|
  {
    if path != [] {
      WellFormedBelow(kids[path[0]].children, path[1..]);
    }
  }

  /** In the group's shape the name `addNew` picks is always free, so the insertion happens. */
  lemma NewNameFree(roots: seq<Node>, path: seq<nat>, typ: string)
    requires GroupShape(roots) && ValidPath(roots, path)
    ensures NewName(InsertPos(roots, path), typ) !in Names(KidsAt(roots, path))
  {
    var pos := InsertPos(roots, path);
    var name := NewName(pos, typ);
    var kids := KidsAt(roots, path);
    assert Positioned(pos, name) by {
      assert name[..|NatToString(pos) + ": "|] == NatToString(pos) + ": ";
    }
    PositionedNotReserved(pos, name);
    if path == [] {
      forall i | 0 <= i < |kids| ensures kids[i].name != name {
        if i < |roots| - 2 {
          assert kids[i] == Users(roots)[i];
          PositionedNamesDiffer(i, pos, kids[i].name, name);
        }
      }
    } else {
      KidsWellFormed(roots, path);
      forall i | 0 <= i < |kids| ensures kids[i].name != name {
        PositionedNamesDiffer(i, pos, kids[i].name, name);
      }
    }
  }

  /** Inserting where `addNew` inserts, under the name it picks, keeps the group's shape. */
  lemma InsertKeepsShape(roots: seq<Node>, path: seq<nat>, typ: string, val: string)
    requires GroupShape(roots) && ValidPath(roots, path)
    ensures var pos := InsertPos(roots, path);
      var kids := KidsAt(roots, path);
      GroupShape(WithKidsAt(roots, path, InsertAt(kids, pos, Leaf(NewName(pos, typ), val))))
  {
    var pos := InsertPos(roots, path);
    var kids := KidsAt(roots, path);
    var x := Leaf(NewName(pos, typ), val);
    var r := WithKidsAt(roots, path, InsertAt(kids, pos, x));
    if path == [] {
      WellFormedAppend(Users(roots), typ, val);
      assert Users(r) == Users(roots) + [x];
    } else {
      KidsWellFormed(roots, path);
      WellFormedAppend(kids, typ, val);
      assert InsertAt(kids, pos, x) == kids + [x];
      GroupShapeReplace(roots, path, InsertAt(kids, pos, x));
    }
  }

  /** Once `addNew` inserted below `child`, the name it would pick there again is taken. */
  lemma InsertedNameTaken(roots: seq<Node>, w: Walk, typ: string)
    requires WalkOk(roots, w, typ)
    ensures w.inserted ==> NewName(w.pos, typ) in Names(KidsAt(roots, w.path))
  {
    if w.inserted {
      assert Names(KidsAt(roots, w.path))[w.pos] == NewName(w.pos, typ);
    }
  }

  /** Whatever the path, `addNew` keeps the group's shape: `Level` and `Remove` stay last and every label keeps its position prefix. */
  lemma {:induction false} AddNewKeepsShape(roots: seq<Node>, w: Walk, segs: seq<string>, typ: string, val: string)
    requires GroupShape(roots) && WalkOk(roots, w, typ)
    ensures GroupShape(AddNewRun(roots, w, segs, typ, val).0)
    decreases |segs|
  {
    if segs != [] {
      StepKeepsShape(roots, w, segs[0], typ, val);
      match AddNewStep(roots, w, segs[0], typ, val)
      case Failure(e) =>
      case Success((roots', w')) =>
        AddNewKeepsShape(roots', w', segs[1..], typ, val);
    }
  }

  /** One step of `addNew` keeps the group's shape. */
  lemma StepKeepsShape(roots: seq<Node>, w: Walk, seg: string, typ: string, val: string)
    requires GroupShape(roots) && WalkOk(roots, w, typ)
    ensures var r := AddNewStep(roots, w, seg, typ, val);
      r.Success? ==> GroupShape(r.value.0)
  {
    if seg == "x" {
      InsertedNameTaken(roots, w, typ);
      InsertKeepsShape(roots, w.path, typ, val);
    }
  }

  // ---------------------------------------------------------------- remove_child

  /** `name.split(":")[-1].strip()`: the part of a label that survives renumbering. */
  function TagOf(name: string): string {
    Strip(LastField(name, ':'))
  }

  /** `child.setName(name)` for the i-th of `kids`: pyqtgraph keeps the old name when a sibling (or the child itself) already has the new one. */
  function SetName(kids: seq<Node>, i: nat, name: string): seq<Node>
    requires i < |kids|
  {
    if name in Names(kids) then kids else kids[i := kids[i].(name := name)]
  }

  /** The renaming loop of `remove_child`, from position `i` on. */
  function RenameFrom(kids: seq<Node>, i: nat): seq<Node>
    decreases |kids| - i
  {
    if i >= |kids| then kids
    else
      var kids' := if kids[i].reserved then kids else SetName(kids, i, NewName(i, TagOf(kids[i].name)));
      RenameFrom(kids', i + 1)
  }

  /** The intended result of the renaming loop: every unreserved child at position i is called `"<i>: <tag>"`. */
  function Renumber(kids: seq<Node>): (r: seq<Node>)
    ensures |r| == |kids|
  {
    seq(|kids|, i requires 0 <= i < |kids| =>
      if kids[i].reserved then kids[i] else kids[i].(name := NewName(i, TagOf(kids[i].name))))
  }

  /** `remove_child` once its walk reached the node at `path`: detach it unless it is reserved, then renumber its siblings. */
  function RemoveAt(roots: seq<Node>, path: seq<nat>): seq<Node>
    requires ValidPath(roots, path) && path != []
  {
    ValidPathParent(roots, path);
    var parent := path[..|path| - 1];
    var idx := path[|path| - 1];
    var kids := KidsAt(roots, parent);
    var left := if kids[idx].reserved then kids else DropAt(kids, idx);
    WithKidsAt(roots, parent, RenameFrom(left, 0))
  }

  /** `remove_child()` with the `Level` text split at '.' into `segs`. */
  function RemoveChild(roots: seq<Node>, segs: seq<string>): (seq<Node>, Outcome<Error>)
    requires |segs| >= 1
  {
    match ResolveFrom(roots, [], segs)
    case Failure(e) => (roots, Fail(e))
    case Success(path) => (RemoveAt(roots, path), Pass)
  }

  // ---------------------------------------------------------------- remove_child: properties

  /** The siblings the renaming loop sees: each unreserved one is labelled with its own position or the next (it moved up by one). */
  predicate RenameReady(kids: seq<Node>) {
    forall j :: 0 <= j < |kids| ==>
      if kids[j].reserved then kids[j].name == LevelName || kids[j].name == RemoveName
      else Positioned(j, kids[j].name) || Positioned(j + 1, kids[j].name)
  }

  /** `kids` with the unreserved children before position `i` already renumbered. */
  function RenumberedBelow(kids: seq<Node>, i: nat): (r: seq<Node>)
    ensures |r| == |kids|
  {
    seq(|kids|, j requires 0 <= j < |kids| =>
      if j < i && !kids[j].reserved then kids[j].(name := NewName(j, TagOf(kids[j].name))) else kids[j])
  }

  lemma NewNamePositioned(i: nat, tag: string)
    ensures Positioned(i, NewName(i, tag))
  {
    assert NewName(i, tag)[..|NatToString(i) + ": "|] == NatToString(i) + ": ";
  }

  /** The name the loop gives the i-th child is carried by no other sibling, so pyqtgraph accepts it. */
  lemma {:induction false} RenameStepFree(kids: seq<Node>, i: nat)
    requires RenameReady(kids) && i < |kids| && !kids[i].reserved
    ensures var m := RenumberedBelow(kids, i);
      SetName(m, i, NewName(i, TagOf(kids[i].name))) == RenumberedBelow(kids, i + 1)
  {
    var m := RenumberedBelow(kids, i);
    var name := NewName(i, TagOf(kids[i].name));
    NewNamePositioned(i, TagOf(kids[i].name));
    PositionedNotReserved(i, name);
    forall j | 0 <= j < |m| && j != i ensures m[j].name != name {
      if kids[j].reserved {
      } else if j < i {
        NewNamePositioned(j, TagOf(kids[j].name));
        PositionedNamesDiffer(j, i, m[j].name, name);
      } else if Positioned(j, kids[j].name) {
        PositionedNamesDiffer(j, i, m[j].name, name);
      } else {
        PositionedNamesDiffer(j + 1, i, m[j].name, name);
      }
    }
    var r := RenumberedBelow(kids, i + 1);
    if name in Names(m) {
      var j :| 0 <= j < |m| && Names(m)[j] == name;
      assert j == i;
      assert m[i].(name := name) == m[i];
    }
    assert SetName(m, i, name) == m[i := m[i].(name := name)];
    assert m[i := m[i].(name := name)] == r;
  }

  /** On siblings ready for it, the renaming loop (with pyqtgraph's refusals) is the intended renumbering. */
  lemma {:induction false} RenameFromRenumbers(kids: seq<Node>, i: nat)
    requires RenameReady(kids) && i <= |kids|
    ensures RenameFrom(RenumberedBelow(kids, i), i) == Renumber(kids)
    decreases |kids| - i
  {
    var m := RenumberedBelow(kids, i);
    if i == |kids| {
      assert m == Renumber(kids);
    } else {
      if kids[i].reserved {
        assert RenumberedBelow(kids, i + 1) == m;
      } else {
        RenameStepFree(kids, i);
      }
      RenameFromRenumbers(kids, i + 1);
    }
  }

  lemma RenameFromStart(kids: seq<Node>)
    requires RenameReady(kids)
    ensures RenameFrom(kids, 0) == Renumber(kids)
  {
    assert RenumberedBelow(kids, 0) == kids;
    RenameFromRenumbers(kids, 0);
  }

  /** Renumbering user-created siblings gives a well-formed list. */
  lemma RenumberWellFormed(kids: seq<Node>)
    requires forall j :: 0 <= j < |kids| ==> !kids[j].reserved && WellFormed(kids[j].children)
    ensures WellFormed(Renumber(kids))
  {
    var r := Renumber(kids);
    forall j | 0 <= j < |r| ensures !r[j].reserved && Positioned(j, r[j].name) && WellFormed(r[j].children) {
      NewNamePositioned(j, TagOf(kids[j].name));
    }
  }

  /** The intended effect of `remove_child` once its walk reached `path`: the target detached unless reserved, its siblings renumbered. */
  function RemovedAt(roots: seq<Node>, path: seq<nat>): seq<Node>
    requires ValidPath(roots, path) && path != []
  {
    ValidPathParent(roots, path);
    var parent := path[..|path| - 1];
    var kids := KidsAt(roots, parent);
    var idx := path[|path| - 1];
    WithKidsAt(roots, parent, Renumber(if kids[idx].reserved then kids else DropAt(kids, idx)))
  }

  /** What is left of the group's children once the idx-th is detached (unless reserved). */
  function TopLeft(roots: seq<Node>, idx: nat): seq<Node>
    requires idx < |roots|
  {
    if roots[idx].reserved then roots else DropAt(roots, idx)
  }

  /** At the top, the renaming loop finds its siblings ready. */
  lemma TopReady(roots: seq<Node>, idx: nat)
    requires GroupShape(roots) && idx < |roots|
    ensures RenameReady(TopLeft(roots, idx))
  {
    var left := TopLeft(roots, idx);
    forall j | 0 <= j < |left| ensures
      if left[j].reserved then left[j].name == LevelName || left[j].name == RemoveName
      else Positioned(j, left[j].name) || Positioned(j + 1, left[j].name)
    {
      if roots[idx].reserved {
        if j < |roots| - 2 { assert left[j] == Users(roots)[j]; }
      } else if j < idx {
        assert left[j] == Users(roots)[j];
      } else if j + 1 < |roots| - 2 {
        assert left[j] == Users(roots)[j + 1];
      }
    }
  }

  /** At the top, the renumbered children keep the group's shape. */
  lemma TopShape(roots: seq<Node>, idx: nat)
    requires GroupShape(roots) && idx < |roots|
    ensures GroupShape(Renumber(TopLeft(roots, idx)))
  {
    var left := TopLeft(roots, idx);
    TopLeftEnds(roots, idx);
    RenumberPrefix(left, |left| - 2);
  }

  /** Detaching a child at the top keeps `Level` and `Remove` last and leaves only well-formed user nodes before them. */
  lemma TopLeftEnds(roots: seq<Node>, idx: nat)
    requires GroupShape(roots) && idx < |roots|
    ensures var left := TopLeft(roots, idx);
      && |left| >= 2
      && left[|left| - 2] == roots[|roots| - 2] && left[|left| - 1] == roots[|roots| - 1]
      && forall j :: 0 <= j < |left| - 2 ==> !left[j].reserved && WellFormed(left[j].children)
  {
    var u := Users(roots);
    assert forall j :: 0 <= j < |u| ==> roots[j] == u[j];
    if !roots[idx].reserved {
      assert idx < |u|;
      var left := DropAt(roots, idx);
      forall j | 0 <= j < |left| - 2 ensures !left[j].reserved && WellFormed(left[j].children) {
        if j < idx { assert left[j] == u[j]; } else { assert left[j] == u[j + 1]; }
      }
    }
  }

  /** Renumbering keeps a prefix of user-created, well-formed nodes well-formed. */
  lemma RenumberPrefix(kids: seq<Node>, n: nat)
    requires n <= |kids|
    requires forall j :: 0 <= j < n ==> !kids[j].reserved && WellFormed(kids[j].children)
    ensures WellFormed(Renumber(kids)[..n])
  {
    RenumberWellFormed(kids[..n]);
    RenumberTake(kids, n);
  }

  /** Renumbering commutes with taking a prefix. */
  lemma RenumberTake(kids: seq<Node>, n: nat)
    requires n <= |kids|
    ensures Renumber(kids)[..n] == Renumber(kids[..n])
  {
  }

  /** Removing a child of the group itself: the renaming meets no clash and the shape is kept. */
  lemma RemoveAtTop(roots: seq<Node>, idx: nat)
    requires GroupShape(roots) && idx < |roots|
    ensures ValidPath(roots, [idx])
    ensures RemoveAt(roots, [idx]) == RemovedAt(roots, [idx])
    ensures GroupShape(RemovedAt(roots, [idx]))
  {
    var path := [idx];
    assert ValidPath(roots, path) by { assert ValidPath(roots[idx].children, []); }
    ValidPathParent(roots, path);
    assert path[..0] == [];
    TopReady(roots, idx);
    RenameFromStart(TopLeft(roots, idx));
    TopShape(roots, idx);
  }

  /** Removing below a user-created node or below `Level`/`Remove`: every sibling is user-created. */
  lemma RemoveBelow(roots: seq<Node>, path: seq<nat>)
    requires GroupShape(roots) && ValidPath(roots, path) && |path| >= 2
    ensures RemoveAt(roots, path) == RemovedAt(roots, path)
    ensures GroupShape(RemovedAt(roots, path))
  {
    ValidPathParent(roots, path);
    var parent := path[..|path| - 1];
    var idx := path[|path| - 1];
    var kids := KidsAt(roots, parent);
    KidsWellFormed(roots, parent);
    var left := if kids[idx].reserved then kids else DropAt(kids, idx);
    assert RenameReady(left);
    RenameFromStart(left);
    RenumberWellFormed(left);
    GroupShapeReplace(roots, parent, Renumber(left));
  }

  /**
   * `remove_child` in the group's shape: when the walk fails it raises and nothing changes;
   * otherwise the target is detached unless it is `Level` or `Remove`, every remaining
   * unreserved sibling at position i is renamed `"<i>: <tag>"` with the text after its last ':',
   * and the group keeps its shape, `Level` and `Remove` included.
   */
  lemma RemoveChildSpec(roots: seq<Node>, segs: seq<string>)
    requires GroupShape(roots) && |segs| >= 1
    ensures var (r, out) := RemoveChild(roots, segs);
      && GroupShape(r)
      && (ResolveFrom(roots, [], segs).Failure? ==> r == roots && out == Fail(ResolveFrom(roots, [], segs).error))
      && (ResolveFrom(roots, [], segs).Success? ==> out == Pass && r == RemovedAt(roots, ResolveFrom(roots, [], segs).value))
  {
    match ResolveFrom(roots, [], segs)
    case Failure(e) =>
    case Success(path) =>
      if |path| == 1 {
        assert path == [path[0]];
        RemoveAtTop(roots, path[0]);
      } else {
        RemoveBelow(roots, path);
      }
  }

  /** A node labelled `"<i>: <tag>"` with a tag that survives the split at ':' and the strip. */
  predicate Labelled(i: nat, name: string) {
    name == NewName(i, TagOf(name))
  }

  /** Every unreserved sibling is labelled by its own position. */
  predicate AllLabelled(kids: seq<Node>) {
    forall j :: 0 <= j < |kids| && !kids[j].reserved ==> Labelled(j, kids[j].name)
  }

  /** A tag that `"<i>: " + tag` gives back: no ':' and no surrounding white space. */
  lemma CleanTagLabelled(i: nat, tag: string)
    requires ':' !in tag && Trimmed(tag)
    ensures Labelled(i, NewName(i, tag))
  {
    var d := NatToString(i);
    assert ':' !in d by { assert AllDigits(d); }
    SplitAt(d, " " + tag, ':');
    assert NewName(i, tag) == d + [':'] + (" " + tag);
    assert ':' !in " " + tag;
    SplitAbsent(" " + tag, ':');
    StripPadded(tag);
  }

  /** Renumbering changes no sibling that is already labelled by its position. */
  lemma RenumberLabelled(kids: seq<Node>)
    requires AllLabelled(kids)
    ensures Renumber(kids) == kids
  {
    var r := Renumber(kids);
    forall j | 0 <= j < |kids| ensures r[j] == kids[j] {
      if !kids[j].reserved {
        assert kids[j].(name := kids[j].name) == kids[j];
      }
    }
  }

  /** Siblings positioned by their own positions are ready for the renaming loop. */
  lemma PositionedReady(roots: seq<Node>, target: seq<nat>)
    requires GroupShape(roots) && ValidPath(roots, target)
    requires var kids := KidsAt(roots, target);
      forall j :: 0 <= j < |kids| && !kids[j].reserved ==> Positioned(j, kids[j].name)
    ensures RenameReady(KidsAt(roots, target))
  {
    var kids := KidsAt(roots, target);
    if target == [] {
      forall j | 0 <= j < |roots| - 2 ensures !kids[j].reserved {
        assert kids[j] == Users(roots)[j];
      }
    } else {
      KidsWellFormed(roots, target);
    }
  }

  /** Labelled siblings are ready for the renaming loop, which leaves them as they are. */
  lemma LabelledReady(roots: seq<Node>, target: seq<nat>)
    requires GroupShape(roots) && ValidPath(roots, target)
    requires AllLabelled(KidsAt(roots, target))
    ensures RenameFrom(KidsAt(roots, target), 0) == KidsAt(roots, target)
  {
    var kids := KidsAt(roots, target);
    forall j | 0 <= j < |kids| && !kids[j].reserved ensures Positioned(j, kids[j].name) {
      assert Labelled(j, kids[j].name);
      NewNamePositioned(j, TagOf(kids[j].name));
    }
    PositionedReady(roots, target);
    RenameFromStart(kids);
    RenumberLabelled(kids);
  }

  /** Detaching a node just appended below `target` and renumbering labelled siblings restores the children. */
  lemma RemoveInserted(roots: seq<Node>, target: seq<nat>, typ: string, val: string)
    requires GroupShape(roots) && ValidPath(roots, target)
    requires AllLabelled(KidsAt(roots, target))
    ensures var pos := InsertPos(roots, target);
      var added := WithKidsAt(roots, target, InsertAt(KidsAt(roots, target), pos, Leaf(NewName(pos, typ), val)));
      ValidPath(added, target + [pos]) && RemoveAt(added, target + [pos]) == roots
  {
    var pos := InsertPos(roots, target);
    var kids := KidsAt(roots, target);
    var x := Leaf(NewName(pos, typ), val);
    var ins := InsertAt(kids, pos, x);
    var added := WithKidsAt(roots, target, ins);
    var p := target + [pos];
    ValidPathPrefix(added, target, pos);
    ValidPathParent(added, p);
    assert p[..|p| - 1] == target;
    assert KidsAt(added, target) == ins;
    assert !ins[pos].reserved;
    DropInserted(kids, pos, x);
    LabelledReady(roots, target);
    assert RemoveAt(added, p) == WithKidsAt(added, target, RenameFrom(kids, 0));
    WithKidsAtTwice(roots, target, ins, kids);
    WithKidsAtSame(roots, target);
  }

  /**
   * `remove_child` undoes `addNew`: after inserting a node with a clean tag below a node whose
   * children are all labelled by their positions, pointing `Level` at the new node and removing
   * it gives back the children as they were.
   */
  lemma AddThenRemove(roots: seq<Node>, segs: seq<string>, typ: string, val: string)
    requires GroupShape(roots)
    requires ResolveFrom(roots, [], segs).Success?
    requires AllLabelled(KidsAt(roots, ResolveFrom(roots, [], segs).value))
    requires ':' !in typ && Trimmed(typ)
    ensures var target := ResolveFrom(roots, [], segs).value;
      var (added, out) := AddNew(roots, typ, segs + ["x"], val);
      && out == Pass
      && ValidPath(added, target + [InsertPos(roots, target)])
      && RemoveChild(added, IntStrings(target + [InsertPos(roots, target)])) == (roots, Pass)
  {
    var target := ResolveFrom(roots, [], segs).value;
    var pos := InsertPos(roots, target);
    AddNewAt(roots, [], segs, typ, val);
    NewNameFree(roots, target, typ);
    var added := WithKidsAt(roots, target, InsertAt(KidsAt(roots, target), pos, Leaf(NewName(pos, typ), val)));
    var p := target + [pos];
    RemoveInserted(roots, target, typ, val);
    assert [] + p == p;
    ResolveWritten(added, [], p);
  }
}
