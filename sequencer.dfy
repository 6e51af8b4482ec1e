/**
 * `SequenceUI`: the panel that owns the sequence group and turns its tree into the procedure
 * sequence, saves it as text and loads it back. The Qt signals it emits are the results of
 * the methods here; the file's path, and opening and reading it, are left out.
 */
module Sequencer {
  import opened Wrappers
  import opened Text
  import opened Tree
  import opened Serial
  import opened Dicts
  import opened Flattening
  import opened Expansion
  import opened Loader
  import opened Groups

  class SequenceUI {
    const group: SequenceGroup

    constructor ()
      ensures fresh(group) && group.Valid()
      ensures group.entries == [Node(LevelName, "x", [], true), Node(RemoveName, "", [], true)]
    {
      group := new SequenceGroup();
    }

    /**
     * `build_procedure_sequence()`: the tree without `Level` and `Remove`, and the sequence
     * built from it, the two values sent with `new_sequence`.
     */
    method BuildProcedureSequence() returns (tree: seq<Node>, sequence: seq<Proc>)
      requires group.Valid()
      ensures tree == Users(group.entries) && Tagged(tree)
      ensures sequence == Expand(Flatten(tree, []).1)
      ensures tree == [] ==> sequence == [[]]
    {
      tree := group.entries[..|group.entries| - 2];
      WellFormedTagged(tree);
      assert StepOk(Visit);
      var proc, list := BuildA(tree, [], [], Visit);
      assert [] + Flatten(tree, []).1 == Flatten(tree, []).1;
      sequence := BuildB(list);
      if tree == [] {
        var empty: Proc := [];
        ExpandNoLists(empty);
        assert Expand([empty]) == Expand([]) + ExpandOne(empty);
      }
    }

    /** `write_sequence()`: the text written to the file, one line per user-created node in pre-order. */
    method WriteSequence() returns (text: string)
      requires group.Valid()
      ensures text == GetReadable(group.entries)
      ensures text == Concat(Formatted(Preorder(Users(group.entries), 0)))
    {
      text := GetReadable(group.entries);
      ReadableIsPreorder(group.entries);
    }

    /**
     * `input_sequence()` with the file's `lines`: clears the user-created entries, then adds one
     * node per line; the first exception ends it with what was added so far.
     */
    method InputSequence(lines: seq<string>) returns (out: Outcome<Error>)
      requires group.Valid()
      modifies group
      ensures group.Valid()
      ensures (group.entries, out) == Load(old(group.entries), lines)
    {
      LoadFromBase(group.entries, lines);
      ClearSequence();
      var c := Start;
      for i := 0 to |lines|
        invariant group.Valid()
        invariant Load(old(group.entries), lines) == LoadRun(group.entries, c, lines[i..])
      {
        var line := lines[i];
        assert lines[i..][0] == line && lines[i..][1..] == lines[i + 1..];
        var next := NextLine(c, line);
        if next.Failure? {
          return Fail(next.error);
        }
        var fields := Split(line, ':');
        if |fields| < 3 {
          return Fail(MissingField(line));
        }
        out := group.AddNew(Strip(fields[1]), Some(next.value.1), Strip(fields[2]));
        if out.Fail? {
          return;
        }
        c := next.value.0;
      }
      out := Pass;
    }

    /** The clearing loop of `input_sequence`: `removeChild` on every child not in `base_children`. */
    method ClearSequence()
      requires group.Valid()
      modifies group
      ensures group.Valid() && group.entries == Clear(old(group.entries))
    {
      var children := group.entries;
      var kept: seq<Node> := [];
      for i := 0 to |children|
        invariant kept == Clear(children[..i])
      {
        assert children[..i + 1] == children[..i] + [children[i]];
        ClearAppend(children[..i], [children[i]]);
        if children[i].reserved {
          kept := kept + [children[i]];
        }
      }
      assert children[..|children|] == children;
      ClearShape(children);
      group.entries := kept;
    }

    /**
     * The part of the reading loop before the split at ':': the new `top_level`, `sub_levels`
     * and `tabs`, and the `level` for `addNew`. This is the step the loop of `InputSequence`
     * runs, written with the pop loop `Indented`; `Loader.NextLevel` is the function that
     * specifies it, and the one the proofs about loading reason with.
     */
    static method NextLine(c: Cursor, line: string) returns (r: Result<(Cursor, seq<string>), Error>)
      ensures r == NextLevel(c, line)
    {
      if |line| == 0 || line[0] != '\t' {
        return Success((Cursor(c.top + 1, [], 0), ["x"]));
      }
      var newTabs := Count(line, '\t');
      var indented := Indented(c.subs, c.tabs, newTabs);
      if indented.Failure? {
        return Failure(indented.error);
      }
      var subs := indented.value;
      var level := IntStrings([c.top] + subs);
      level := level[..|level| - 1] + ["x"];
      r := Success((Cursor(c.top, subs, newTabs), level));
    }

    /** How `sub_levels` changes for a line of `newTabs` tabs after one of `tabs`. */
    static method Indented(subs: seq<int>, tabs: nat, newTabs: nat) returns (r: Result<seq<int>, Error>)
      ensures r == Indent(subs, tabs, newTabs)
    {
      var levels := subs;
      if newTabs > tabs {
        return Success(levels + [0]);
      }
      if newTabs < tabs {
        for k := 0 to tabs - newTabs
          invariant |subs| >= k && levels == subs[..|subs| - k]
        {
          if levels == [] {
            return Failure(EmptyStack);
          }
          levels := levels[..|levels| - 1];
        }
      }
      var at := newTabs - 1;
      if !(-|levels| <= at < |levels|) {
        return Failure(IndexOutOfRange(at));
      }
      var j := if at >= 0 then at else at + |levels|;
      r := Success(levels[j := levels[j] + 1]);
    }
  }
}
