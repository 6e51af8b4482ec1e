/**
 * The text form of the sequence tree (`SequenceGroup.get_node_str` and `get_readable`): one
 * line per node, indented by one tab per level, reading `<name>: <value>`.
 */
module Serial {
  import opened Text
  import opened Tree

  /** `i * "\t"` */
  function Tabs(depth: nat): (r: string)
    ensures |r| == depth && forall k :: 0 <= k < depth ==> r[k] == '\t'
  {
    seq(depth, _ => '\t')
  }

  /** The line written for `node` at `depth`: `i * "\t" + f"{param}: {val[0]}\n"`. */
  function Line(node: Node, depth: nat): string {
    Tabs(depth) + node.name + ": " + node.value + "\n"
  }

  /** `get_node_str(node_dict, string, i)`: appends the lines of `kids` and of all their descendants to `s`. */
  function GetNodeStr(kids: seq<Node>, s: string, depth: nat): string
    decreases kids
  {
    if kids == [] then s
    else
      var s1 := s + Line(kids[0], depth);
      var s2 := if |kids[0].children| > 0 then GetNodeStr(kids[0].children, s1, depth + 1) else s1;
      GetNodeStr(kids[1..], s2, depth)
  }

  /** The loop of `get_readable` over the group's children, skipping the entries named `Level` and `Remove`. */
  function ReadableFrom(entries: seq<Node>, s: string): string
  {
    if entries == [] then s
    else
      var e := entries[0];
      var s' := if e.name != LevelName && e.name != RemoveName then GetNodeStr(e.children, s + Line(e, 0), 1) else s;
      ReadableFrom(entries[1..], s')
  }

  /** `get_readable()` for the group's children `roots`. */
  function GetReadable(roots: seq<Node>): string {
    ReadableFrom(roots, "")
  }

  // ---------------------------------------------------------------- reference: depth-first pre-order

  /** Every node of the forest `kids` with its depth, parents before children, siblings in order. */
  function Preorder(kids: seq<Node>, depth: nat): seq<(nat, Node)>
    decreases kids
  {
    if kids == [] then []
    else [(depth, kids[0])] + Preorder(kids[0].children, depth + 1) + Preorder(kids[1..], depth)
  }

  /** The number of nodes in the forest `kids`. */
  function Size(kids: seq<Node>): nat
    decreases kids
  {
    if kids == [] then 0 else 1 + Size(kids[0].children) + Size(kids[1..])
  }

  /** The line of each (depth, node) item. */
  function Formatted(items: seq<(nat, Node)>): (r: seq<string>)
    ensures |r| == |items| && forall i :: 0 <= i < |items| ==> r[i] == Line(items[i].1, items[i].0)
  {
    seq(|items|, i requires 0 <= i < |items| => Line(items[i].1, items[i].0))
  }

  lemma FormattedAppend(a: seq<(nat, Node)>, b: seq<(nat, Node)>)
    ensures Formatted(a + b) == Formatted(a) + Formatted(b)
  {
  }

  /** The pre-order lists every node once, at its depth or deeper. */
  lemma {:induction false} PreorderSize(kids: seq<Node>, depth: nat)
    ensures |Preorder(kids, depth)| == Size(kids)
    ensures forall i :: 0 <= i < |Preorder(kids, depth)| ==> Preorder(kids, depth)[i].0 >= depth
    decreases kids
  {
    if kids != [] {
      PreorderSize(kids[0].children, depth + 1);
      PreorderSize(kids[1..], depth);
    }
  }

  /** The lines of a non-empty forest: its first node, that node's descendants, then the other trees. */
  lemma ConcatPreorderCons(kids: seq<Node>, depth: nat)
    requires kids != []
    ensures Concat(Formatted(Preorder(kids, depth)))
      == Line(kids[0], depth) + Concat(Formatted(Preorder(kids[0].children, depth + 1)))
         + Concat(Formatted(Preorder(kids[1..], depth)))
  {
    var k := kids[0];
    var a, b := Preorder(k.children, depth + 1), Preorder(kids[1..], depth);
    FormattedAppend([(depth, k)] + a, b);
    FormattedAppend([(depth, k)], a);
    ConcatAppend(Formatted([(depth, k)]) + Formatted(a), Formatted(b));
    ConcatAppend(Formatted([(depth, k)]), Formatted(a));
    assert Concat(Formatted([(depth, k)])) == Line(k, depth) by {
      assert Formatted([(depth, k)]) == [Line(k, depth)];
      assert Concat([Line(k, depth)]) == Line(k, depth) + Concat([]);
    }
  }

  /** `get_node_str` writes exactly the pre-order lines of the forest after what it was given. */
  lemma {:induction false} GetNodeStrPreorder(kids: seq<Node>, s: string, depth: nat)
    ensures GetNodeStr(kids, s, depth) == s + Concat(Formatted(Preorder(kids, depth)))
    decreases kids
  {
    if kids != [] {
      var k := kids[0];
      var line := Line(k, depth);
      var s1 := s + line;
      var a := Concat(Formatted(Preorder(k.children, depth + 1)));
      var b := Concat(Formatted(Preorder(kids[1..], depth)));
      var s2 := if |k.children| > 0 then GetNodeStr(k.children, s1, depth + 1) else s1;
      assert s2 == s1 + a by {
        GetNodeStrPreorder(k.children, s1, depth + 1);
        if |k.children| == 0 {
          assert Formatted(Preorder(k.children, depth + 1)) == [];
          assert s1 + a == s1;
        }
      }
      calc {
        GetNodeStr(kids, s, depth);
        GetNodeStr(kids[1..], s2, depth);
        { GetNodeStrPreorder(kids[1..], s2, depth); }
        s2 + b;
        s + line + a + b;
        { AppendAssoc(s, line, a); }
        s + (line + a) + b;
        { AppendAssoc(s, line + a, b); }
        s + (line + a + b);
        { ConcatPreorderCons(kids, depth); }
        s + Concat(Formatted(Preorder(kids, depth)));
      }
    }
  }

  /** The loop of `get_readable` over user-created entries writes their pre-order lines. */
  lemma {:induction false} ReadableFromUsers(entries: seq<Node>, s: string)
    requires forall i :: 0 <= i < |entries| ==> entries[i].name != LevelName && entries[i].name != RemoveName
    ensures ReadableFrom(entries, s) == s + Concat(Formatted(Preorder(entries, 0)))
  {
    if entries != [] {
      var e := entries[0];
      var line := Line(e, 0);
      var a := Concat(Formatted(Preorder(e.children, 1)));
      var b := Concat(Formatted(Preorder(entries[1..], 0)));
      var t := GetNodeStr(e.children, s + line, 1);
      calc {
        ReadableFrom(entries, s);
        ReadableFrom(entries[1..], t);
        { GetNodeStrPreorder(e.children, s + line, 1); }
        ReadableFrom(entries[1..], s + line + a);
        { ReadableFromUsers(entries[1..], s + line + a); }
        s + line + a + b;
        { AppendAssoc(s, line, a); }
        s + (line + a) + b;
        { AppendAssoc(s, line + a, b); }
        s + (line + a + b);
        { ConcatPreorderCons(entries, 0); }
        s + Concat(Formatted(Preorder(entries, 0)));
      }
    }
  }

  /** `get_readable` skips `Level` and `Remove`, with everything below them. */
  lemma ReadableSkipsReserved(roots: seq<Node>, s: string)
    requires |roots| == 2 && roots[0].name == LevelName && roots[1].name == RemoveName
    ensures ReadableFrom(roots, s) == s
  {
    assert roots[1..][1..] == [];
    assert ReadableFrom(roots[1..], s) == s;
  }

  lemma {:induction false} ReadableFromAppend(a: seq<Node>, b: seq<Node>, s: string)
    requires forall i :: 0 <= i < |a| ==> a[i].name != LevelName && a[i].name != RemoveName
    ensures ReadableFrom(a + b, s) == ReadableFrom(b, ReadableFrom(a, s))
  {
    if a != [] {
      assert (a + b)[1..] == a[1..] + b;
      ReadableFromAppend(a[1..], b, GetNodeStr(a[0].children, s + Line(a[0], 0), 1));
    } else {
      assert a + b == b;
    }
  }

  /**
   * In the group's shape, `get_readable` writes one line per user-created node, in depth-first
   * pre-order, a node at depth d as d tabs and `"<name>: <value>"`; `Level` and `Remove` are omitted.
   */
  lemma ReadableIsPreorder(roots: seq<Node>)
    requires GroupShape(roots)
    ensures GetReadable(roots) == Concat(Formatted(Preorder(Users(roots), 0)))
    ensures |Formatted(Preorder(Users(roots), 0))| == Size(Users(roots))
  {
    var u := Users(roots);
    forall i | 0 <= i < |u| ensures u[i].name != LevelName && u[i].name != RemoveName {
      PositionedNotReserved(i, u[i].name);
    }
    assert roots == u + roots[|roots| - 2..];
    ReadableFromAppend(u, roots[|roots| - 2..], "");
    ReadableFromUsers(u, "");
    ReadableSkipsReserved(roots[|roots| - 2..], Concat(Formatted(Preorder(u, 0))));
    assert "" + Concat(Formatted(Preorder(u, 0))) == Concat(Formatted(Preorder(u, 0)));
    PreorderSize(u, 0);
  }
}
