/**
 * `SequenceGroup`: the parameter group holding the sequence tree. Its children are updated in
 * place by `addNew` and `remove_child`; each method here runs the source's loop over its own
 * `entries` and is proved to leave exactly what the functions of `Editing` describe.
 */
module Groups {
  import opened Wrappers
  import opened Text
  import opened Tree
  import opened Editing

  class SequenceGroup {
    /** The group's children: the user-created entries, then `Level` and `Remove`. */
    var entries: seq<Node>

    ghost predicate Valid()
      reads this
    {
      GroupShape(entries)
    }

    /** A new group holds only the `Level` box, reading `"x"`, and the `Remove` button. */
    constructor ()
      ensures Valid()
      ensures entries == [Node(LevelName, "x", [], true), Node(RemoveName, "", [], true)]
    {
      entries := [Node(LevelName, "x", [], true), Node(RemoveName, "", [], true)];
    }

    /** `self.level.value()` */
    function LevelText(): string
      reads this
      requires Valid()
    {
      entries[|entries| - 2].value
    }

    /** Typing `text` into the `Level` box. */
    method SetLevel(text: string)
      requires Valid()
      modifies this
      ensures Valid()
      ensures entries == old(entries)[|old(entries)| - 2 := old(entries)[|old(entries)| - 2].(value := text)]
      ensures LevelText() == text
    {
      var n := |entries| - 2;
      entries := entries[n := entries[n].(value := text)];
      assert Users(entries) == Users(old(entries));
    }

    /**
     * `addNew(typ, level, val)`; without a level, the `Level` text split at '.'. An exception
     * stops the loop: `out` is what it raised, and what was inserted before stays.
     */
    method AddNew(typ: string, level: Option<seq<string>>, val: string) returns (out: Outcome<Error>)
      requires Valid()
      modifies this
      ensures Valid()
      ensures var segs := if level.Some? then level.value else Split(old(LevelText()), '.');
        (entries, out) == Editing.AddNew(old(entries), typ, segs, val)
    {
      var segs := if level.Some? then level.value else Split(LevelText(), '.');
      ghost var result := Editing.AddNew(entries, typ, segs, val);
      WalkAtOk(entries, [], typ);
      AddNewKeepsShape(entries, WalkAt(entries, []), segs, typ, val);
      var w := WalkAt(entries, []);
      for i := 0 to |segs|
        invariant WalkOk(entries, w, typ)
        invariant result == AddNewRun(entries, w, segs[i..], typ, val)
      {
        assert segs[i..][0] == segs[i] && segs[i..][1..] == segs[i + 1..];
        var r := Advance(w, segs[i], typ, val);
        if r.Failure? {
          return Fail(r.error);
        }
        w := r.value;
      }
      out := Pass;
    }

    /**
     * One iteration of `addNew`'s loop for the segment `seg`. `w` holds the loop variables:
     * the path of `child`, the length of the list `children` read from it, `insert_pos` (equal
     * to `insert_level`) and whether a node was inserted into `child` since.
     */
    method Advance(w: Walk, seg: string, typ: string, val: string) returns (r: Result<Walk, Error>)
      requires WalkOk(entries, w, typ)
      modifies this
      ensures r.Failure? ==> entries == old(entries) && AddNewStep(old(entries), w, seg, typ, val) == Failure(r.error)
      ensures r.Success? ==> AddNewStep(old(entries), w, seg, typ, val) == Success((entries, r.value))
    {
      if seg == "x" {
        var kids := KidsAt(entries, w.path);
        var name := NewName(w.pos, typ);
        if name in Names(kids) {
          return Failure(DuplicateName(name));
        }
        entries := WithKidsAt(entries, w.path, InsertAt(kids, w.pos, Leaf(name, val)));
        return Success(w.(inserted := true));
      }
      var k := ParseInt(seg);
      if k.None? {
        return Failure(NotAnInteger(seg));
      }
      var j := PyIndex(k.value, w.snapLen);
      if j.None? {
        return Failure(IndexOutOfRange(k.value));
      }
      // the list `children` was read before the insertion at `pos`
      var live := if w.inserted && j.value >= w.pos then j.value + 1 else j.value;
      ValidPathPrefix(entries, w.path, live);
      var path := w.path + [live];
      var n := |KidsAt(entries, path)|;
      r := Success(Walk(path, n, n, false));
    }

    /**
     * `remove_child()`: walks the `Level` path, detaches the node found unless it is `Level`
     * or `Remove`, then renames each remaining sibling after its position.
     */
    method RemoveChild() returns (out: Outcome<Error>)
      requires Valid()
      modifies this
      ensures Valid()
      ensures (entries, out) == Editing.RemoveChild(old(entries), Split(old(LevelText()), '.'))
    {
      var segs := Split(LevelText(), '.');
      RemoveChildSpec(entries, segs);
      entries, out := Detach(entries, segs);
    }

    /** The body of `remove_child` on the children `roots`, the `Level` text split into `segs`. */
    static method Detach(roots: seq<Node>, segs: seq<string>) returns (r: seq<Node>, out: Outcome<Error>)
      requires |segs| >= 1
      ensures (r, out) == Editing.RemoveChild(roots, segs)
    {
      var found := Resolve(roots, segs);
      if found.Failure? {
        return roots, Fail(found.error);
      }
      var path := found.value;
      ValidPathParent(roots, path);
      var parent := path[..|path| - 1];
      var idx := path[|path| - 1];
      var kids := KidsAt(roots, parent);
      var left := if kids[idx].reserved then kids else DropAt(kids, idx);
      var renamed := RenameSiblings(left);
      r, out := WithKidsAt(roots, parent, renamed), Pass;
    }

    /** The walk of `remove_child`: `child = children[int(lvl)]; children = child.children()` for each segment. */
    static method Resolve(entries: seq<Node>, segs: seq<string>) returns (r: Result<seq<nat>, Error>)
      ensures r == ResolveFrom(entries, [], segs)
    {
      var path: seq<nat> := [];
      for i := 0 to |segs|
        invariant ValidPath(entries, path)
        invariant ResolveFrom(entries, [], segs) == ResolveFrom(entries, path, segs[i..])
      {
        assert segs[i..][0] == segs[i] && segs[i..][1..] == segs[i + 1..];
        var k := ParseInt(segs[i]);
        if k.None? {
          return Failure(NotAnInteger(segs[i]));
        }
        var j := PyIndex(k.value, |KidsAt(entries, path)|);
        if j.None? {
          return Failure(IndexOutOfRange(k.value));
        }
        ValidPathPrefix(entries, path, j.value);
        path := path + [j.value];
      }
      assert segs[|segs|..] == [];
      r := Success(path);
    }

    /** The renaming loop of `remove_child` over the parent's children. */
    static method RenameSiblings(kids: seq<Node>) returns (r: seq<Node>)
      ensures r == RenameFrom(kids, 0)
    {
      r := kids;
      for i := 0 to |r|
        invariant |r| == |kids|
        invariant RenameFrom(kids, 0) == RenameFrom(r, i)
      {
        if !r[i].reserved {
          var name := NewName(i, TagOf(r[i].name));
          if name !in Names(r) {
            r := r[i := r[i].(name := name)];
          }
        }
      }
    }
  }
}
