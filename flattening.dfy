/**
 * `SequenceUI.build_procedure_sequence_a`: a depth-first walk of the sequence tree that sets,
 * in one running procedure dictionary, each visited node's parameter to its cast value and
 * appends a copy of that dictionary at every leaf; and `SequenceUI.write_dict`.
 */
module Flattening {
  import opened Wrappers
  import opened Text
  import opened Values
  import opened Tree
  import opened Dicts
  import opened Serial

  /** A procedure's parameters: parameter name to cast value, in insertion order. */
  type Proc = Dict<Value>

  /** Every name in the forest contains ':', so `key.split(':')[1]` exists. */
  predicate Tagged(kids: seq<Node>) {
    forall i :: 0 <= i < |kids| ==> ':' in kids[i].name && Tagged(kids[i].children)
  }

  /** `key.split(':')[1].strip()`: the parameter a node sets. */
  function Tag(name: string): (r: string)
    requires ':' in name
    ensures Trimmed(r)
  {
    CountPresent(name, ':');
    Strip(Split(name, ':')[1])
  }

  /** The parameter of a node named `"<i>: <tag>"` is `tag`, when the tag is clean. */
  lemma TagOfNewName(i: nat, tag: string)
    requires ':' !in tag && Trimmed(tag)
    ensures ':' in NatToString(i) + ": " + tag
    ensures Tag(NatToString(i) + ": " + tag) == tag
  {
    var d := NatToString(i);
    assert ':' !in d by { assert AllDigits(d); }
    assert d + ": " + tag == d + [':'] + (" " + tag);
    assert (d + ": " + tag)[|d|] == ':';
    SplitAt(d, " " + tag, ':');
    assert ':' !in " " + tag;
    SplitAbsent(" " + tag, ':');
    StripPadded(tag);
  }

  /** Names positioned by `addNew` contain ':'. */
  lemma {:induction false} WellFormedTagged(kids: seq<Node>)
    requires WellFormed(kids)
    ensures Tagged(kids)
    decreases kids
  {
    forall i | 0 <= i < |kids| ensures ':' in kids[i].name && Tagged(kids[i].children) {
      var p := NatToString(i) + ": ";
      assert kids[i].name[|NatToString(i)|] == p[|NatToString(i)|];
      WellFormedTagged(kids[i].children);
    }
  }

  // ---------------------------------------------------------------- the walk, as the source does it

  /** `proc_dict[key] = self.typecast(val[0])` for the entry `n`. */
  function Visit(acc: Proc, n: Node): Proc
    requires ':' in n.name
  {
    Put(acc, Tag(n.name), Typecast(n.value))
  }

  /**
   * How an entry is applied to the running dictionary. The walk and its proofs below are stated
   * for any such step; the sequencer's is `Visit`.
   */
  type Step = (Proc, Node) --> Proc

  /** The step applies to every entry whose name contains ':'. */
  ghost predicate StepOk(step: Step) {
    forall a: Proc, n: Node :: ':' in n.name ==> step.requires(a, n)
  }

  /**
   * `build_procedure_sequence_a(tree, proc_dict, sequence_list)`: the dictionary afterwards and
   * the copies appended. An empty tree appends the dictionary as it stands.
   */
  function Walk(tree: seq<Node>, acc: Proc, step: Step): (Proc, seq<Proc>)
    requires Tagged(tree) && StepOk(step)
    decreases tree, 1
  {
    if |tree| == 0 then (acc, [acc]) else WalkItems(tree, acc, step)
  }

  /** The `for key, val in tree.items()` loop over the first `|items|` entries. */
  function WalkItems(items: seq<Node>, acc: Proc, step: Step): (Proc, seq<Proc>)
    requires Tagged(items) && StepOk(step)
    decreases items, 0
  {
    if items == [] then (acc, [])
    else
      var front := items[..|items| - 1];
      var n := items[|items| - 1];
      var r := WalkItems(front, acc, step);
      var r' := Walk(n.children, step(r.0, n), step);
      (r'.0, r.1 + r'.1)
  }

  /** The sequencer's walk. */
  function Flatten(tree: seq<Node>, acc: Proc): (Proc, seq<Proc>)
    requires Tagged(tree)
  {
    Walk(tree, acc, Visit)
  }

  /**
   * The recursive walk with its loop; `proc_dict` and `sequence_list` are threaded through as
   * values. The sequencer passes `Visit` as the step.
   */
  method BuildA(tree: seq<Node>, proc: Proc, sequence: seq<Proc>, step: Step) returns (proc': Proc, sequence': seq<Proc>)
    requires Tagged(tree) && StepOk(step)
    ensures proc' == Walk(tree, proc, step).0
    ensures sequence' == sequence + Walk(tree, proc, step).1
    decreases tree
  {
    if |tree| == 0 {
      proc', sequence' := proc, sequence + [proc];
      return;
    }
    proc', sequence' := proc, sequence;
    for i := 0 to |tree|
      invariant Tagged(tree[..i])
      invariant proc' == WalkItems(tree[..i], proc, step).0
      invariant sequence' == sequence + WalkItems(tree[..i], proc, step).1
    {
      var n := tree[i];
      assert tree[..i + 1][..i] == tree[..i] && tree[..i + 1][i] == n;
      proc' := step(proc', n);
      proc', sequence' := BuildA(n.children, proc', sequence', step);
    }
    assert tree[..|tree|] == tree;
  }

  // ---------------------------------------------------------------- reference: one pass over the pre-order

  /** Every visited node names its parameter. */
  predicate AllTagged(visited: seq<(nat, Node)>) {
    forall i :: 0 <= i < |visited| ==> ':' in visited[i].1.name
  }

  /** The running dictionary after visiting `visited` in order. */
  function Accum(acc: Proc, visited: seq<(nat, Node)>, step: Step): Proc
    requires AllTagged(visited) && StepOk(step)
  {
    if visited == [] then acc
    else
      var n := visited[|visited| - 1].1;
      step(Accum(acc, visited[..|visited| - 1], step), n)
  }

  /** The positions of the leaves among `visited`, in order. */
  function Leaves(visited: seq<(nat, Node)>): (r: seq<nat>)
    ensures forall j :: 0 <= j < |r| ==> r[j] < |visited| && visited[r[j]].1.children == []
    ensures forall j, j' :: 0 <= j < j' < |r| ==> r[j] < r[j']
  {
    if visited == [] then []
    else
      var front := Leaves(visited[..|visited| - 1]);
      if visited[|visited| - 1].1.children == [] then front + [|visited| - 1] else front
  }

  /** The pass: the dictionary at the end and a copy of it at each leaf. */
  function Scan(acc: Proc, visited: seq<(nat, Node)>, step: Step): (r: (Proc, seq<Proc>))
    requires AllTagged(visited) && StepOk(step)
    ensures r.0 == Accum(acc, visited, step)
  {
    if visited == [] then (acc, [])
    else
      var r := Scan(acc, visited[..|visited| - 1], step);
      var n := visited[|visited| - 1].1;
      var a := step(r.0, n);
      (a, if n.children == [] then r.1 + [a] else r.1)
  }

  /** The copy taken at the j-th leaf is the dictionary after visiting everything up to that leaf. */
  lemma {:induction false} ScanSnapshots(acc: Proc, visited: seq<(nat, Node)>, step: Step)
    requires AllTagged(visited) && StepOk(step)
    ensures |Scan(acc, visited, step).1| == |Leaves(visited)|
    ensures forall j :: 0 <= j < |Leaves(visited)| ==>
      Scan(acc, visited, step).1[j] == Accum(acc, visited[..Leaves(visited)[j] + 1], step)
  {
    if visited != [] {
      var front := visited[..|visited| - 1];
      var n := visited[|visited| - 1].1;
      assert AllTagged(front);
      ScanSnapshots(acc, front, step);
      var r := Scan(acc, front, step);
      var out := Scan(acc, visited, step).1;
      var L, LV := Leaves(front), Leaves(visited);
      forall j | 0 <= j < |LV| ensures out[j] == Accum(acc, visited[..LV[j] + 1], step) {
        if j < |L| {
          TakeTake(visited, |visited| - 1, L[j] + 1);
          assert LV[j] == L[j] && out[j] == r.1[j];
        } else {
          TakeAll(visited);
          assert LV[j] == |visited| - 1 && out[j] == Scan(acc, visited, step).0;
        }
      }
    }
  }

  lemma AllTaggedAppend(a: seq<(nat, Node)>, b: seq<(nat, Node)>)
    requires AllTagged(a) && AllTagged(b)
    ensures AllTagged(a + b)
  {
    forall i | 0 <= i < |a + b| ensures ':' in (a + b)[i].1.name {
      if i >= |a| { assert (a + b)[i] == b[i - |a|]; }
    }
  }

  /** The pass over `a + b` is the pass over `a`, continued over `b`. */
  lemma {:induction false} ScanAppend(acc: Proc, a: seq<(nat, Node)>, b: seq<(nat, Node)>, step: Step)
    requires AllTagged(a) && AllTagged(b) && StepOk(step)
    ensures AllTagged(a + b)
    ensures Scan(acc, a + b, step).0 == Scan(Scan(acc, a, step).0, b, step).0
    ensures Scan(acc, a + b, step).1 == Scan(acc, a, step).1 + Scan(Scan(acc, a, step).0, b, step).1
    decreases |b|
  {
    AllTaggedAppend(a, b);
    if b == [] {
      assert a + b == a;
    } else {
      var front := b[..|b| - 1];
      var n := b[|b| - 1].1;
      assert (a + b)[..|a + b| - 1] == a + front;
      assert (a + b)[|a + b| - 1].1 == n;
      assert AllTagged(front);
      ScanAppend(acc, a, front, step);
      var x := Scan(acc, a, step);
      var y := Scan(x.0, front, step);
      assert Scan(acc, a + front, step) == (y.0, x.1 + y.1);
      var v := step(y.0, n);
      assert Scan(x.0, b, step) == (v, if n.children == [] then y.1 + [v] else y.1);
      assert Scan(acc, a + b, step) == (v, if n.children == [] then x.1 + y.1 + [v] else x.1 + y.1);
    }
  }

  /** The nodes of a forest in pre-order, taking the last tree off. */
  lemma {:induction false} PreorderSnoc(items: seq<Node>, depth: nat)
    requires items != []
    ensures Preorder(items, depth) ==
      Preorder(items[..|items| - 1], depth) + [(depth, items[|items| - 1])]
      + Preorder(items[|items| - 1].children, depth + 1)
  {
    var last := items[|items| - 1];
    var head := [(depth, items[0])] + Preorder(items[0].children, depth + 1);
    var mid, below := [(depth, last)], Preorder(last.children, depth + 1);
    if |items| == 1 {
      assert items[1..] == [] && items[..0] == [];
      AppendEmpty(head);
      AppendEmpty(mid);
    } else {
      var front := items[..|items| - 1];
      TailFront(items);
      assert items[1..][|items[1..]| - 1] == last;
      PreorderSnoc(items[1..], depth);
      assert front[0] == items[0];
      var t := Preorder(front[1..], depth);
      AppendAssoc(head, t + mid, below);
      AppendAssoc(head, t, mid);
    }
  }

  /** The pre-order of a tagged forest is tagged. */
  lemma {:induction false} PreorderTagged(items: seq<Node>, depth: nat)
    requires Tagged(items)
    ensures AllTagged(Preorder(items, depth))
    decreases items
  {
    if items != [] {
      PreorderTagged(items[0].children, depth + 1);
      PreorderTagged(items[1..], depth);
      AllTaggedAppend([(depth, items[0])], Preorder(items[0].children, depth + 1));
      AllTaggedAppend([(depth, items[0])] + Preorder(items[0].children, depth + 1), Preorder(items[1..], depth));
    }
  }

  /** The walk's loop is the pass over the pre-order of the entries it has visited. */
  lemma {:induction false} WalkItemsIsScan(items: seq<Node>, acc: Proc, depth: nat, step: Step)
    requires Tagged(items) && StepOk(step)
    ensures AllTagged(Preorder(items, depth))
    ensures WalkItems(items, acc, step) == Scan(acc, Preorder(items, depth), step)
    decreases items
  {
    PreorderTagged(items, depth);
    if items != [] {
      var front := items[..|items| - 1];
      var n := items[|items| - 1];
      assert Tagged(front);
      assert Tagged(n.children);
      WalkItemsIsScan(front, acc, depth, step);
      PreorderSnoc(items, depth);
      var P, C := Preorder(front, depth), Preorder(n.children, depth + 1);
      var pf := P + [(depth, n)];
      assert pf[..|pf| - 1] == P && pf[|pf| - 1] == (depth, n);
      PreorderTagged(front, depth);
      PreorderTagged(n.children, depth + 1);
      AllTaggedAppend(P, [(depth, n)]);
      var r := WalkItems(front, acc, step);
      var a1 := step(r.0, n);
      assert Scan(acc, pf, step) == (a1, if n.children == [] then r.1 + [a1] else r.1);
      ScanAppend(acc, pf, C, step);
      assert Preorder(items, depth) == pf + C;
      if n.children != [] {
        WalkItemsIsScan(n.children, a1, depth + 1, step);
      } else {
        assert C == [] && pf + C == pf;
        assert Walk(n.children, a1, step) == (a1, [a1]);
      }
    }
  }

  /**
   * What the walk appends: one copy per leaf of the tree, in depth-first order, each being the
   * dictionary after applying, in visiting order, every node visited up to and including that
   * leaf. The dictionary passed in ends as the one after visiting every node.
   */
  lemma WalkMeaning(tree: seq<Node>, acc: Proc, step: Step)
    requires Tagged(tree) && tree != [] && StepOk(step)
    ensures AllTagged(Preorder(tree, 0))
    ensures Walk(tree, acc, step).0 == Accum(acc, Preorder(tree, 0), step)
    ensures |Walk(tree, acc, step).1| == |Leaves(Preorder(tree, 0))|
    ensures forall j :: 0 <= j < |Leaves(Preorder(tree, 0))| ==>
      Walk(tree, acc, step).1[j] == Accum(acc, Preorder(tree, 0)[..Leaves(Preorder(tree, 0))[j] + 1], step)
  {
    WalkItemsIsScan(tree, acc, 0, step);
    ScanSnapshots(acc, Preorder(tree, 0), step);
  }

  /** The copy at a leaf sets the leaf's own parameter to the leaf's own cast value. */
  lemma LeafSetsOwnTag(acc: Proc, visited: seq<(nat, Node)>, k: nat)
    requires AllTagged(visited) && k < |visited|
    ensures AllTagged(visited[..k + 1])
    ensures Get(Accum(acc, visited[..k + 1], Visit), Tag(visited[k].1.name)) == Some(Typecast(visited[k].1.value))
  {
    assert visited[..k + 1][k] == visited[k];
    assert visited[..k + 1][..k] == visited[..k];
  }

  /**
   * The running dictionary is never reset between siblings, so a copy does not hold the values
   * of the leaf's ancestors alone. In the tree `0: tag` = x with the leaves `0: tag` = y and
   * `1: other` = z below it, the copy taken at the second leaf reads `tag` as the first leaf's
   * cast value `y`, not as its parent's `x`.
   */
  lemma SiblingOverridesAncestor(tag: string, other: string, x: string, y: string, z: string)
    requires ':' !in tag && Trimmed(tag) && ':' !in other && Trimmed(other) && tag != other
    ensures var tree := [Node(NatToString(0) + ": " + tag, x, [Node(NatToString(0) + ": " + tag, y, [], false), Node(NatToString(1) + ": " + other, z, [], false)], false)];
      && Tagged(tree)
      && |Flatten(tree, []).1| == 2
      && Get(Flatten(tree, []).1[1], tag) == Some(Typecast(y))
  {
    TagOfNewName(0, tag);
    TagOfNewName(1, other);
    var c0 := Node(NatToString(0) + ": " + tag, y, [], false);
    var c1 := Node(NatToString(1) + ": " + other, z, [], false);
    var p := Node(NatToString(0) + ": " + tag, x, [c0, c1], false);
    assert StepOk(Visit);
    WalkTwoLeaves(p, [], Visit);
    var a2 := Visit(Visit([], p), c0);
    assert Get(a2, tag) == Some(Typecast(y));
    assert Get(Visit(a2, c1), tag) == Get(a2, tag);
  }

  /** The walk over one node with two leaves below it appends the dictionary after each leaf. */
  lemma WalkTwoLeaves(p: Node, acc: Proc, step: Step)
    requires StepOk(step) && ':' in p.name && |p.children| == 2
    requires ':' in p.children[0].name && p.children[0].children == []
    requires ':' in p.children[1].name && p.children[1].children == []
    ensures Tagged([p])
    ensures var a2 := step(step(acc, p), p.children[0]);
      Walk([p], acc, step).1 == [a2, step(a2, p.children[1])]
  {
    var c0, c1 := p.children[0], p.children[1];
    assert Tagged([c0]) && Tagged(p.children) && Tagged([p]);
    var a1 := step(acc, p);
    var a2 := step(a1, c0);
    var a3 := step(a2, c1);
    assert WalkItems([c0], a1, step) == (a2, [a2]) by {
      assert [c0][..0] == [] && [c0][0] == c0;
      assert Walk([], a2, step) == (a2, [a2]);
      assert [] + [a2] == [a2];
    }
    assert WalkItems(p.children, a1, step) == (a3, [a2] + [a3]) by {
      assert p.children[..1] == [c0];
      assert Walk([], a3, step) == (a3, [a3]);
    }
    assert WalkItems([p], acc, step) == (a3, [a2] + [a3]) by {
      assert [p][..0] == [] && [p][0] == p;
      assert Walk(p.children, a1, step) == WalkItems(p.children, a1, step);
      assert [] + ([a2] + [a3]) == [a2] + [a3];
    }
  }

  /** `typecast` tells `1` and `2` apart, so the copy above does not hold the parent's value. */
  lemma CastsDiffer()
    ensures Typecast("2") != Typecast("1")
  {
    assert NatToString(1) == "1" && NatToString(2) == "2";
    TypecastNat(1);
    TypecastNat(2);
  }

  /** The step removes no parameter from the running dictionary. */
  ghost predicate StepKeepsKeys(step: Step)
    requires StepOk(step)
  {
    forall a: Proc, n: Node, key: string :: ':' in n.name && key in Keys(a) ==> key in Keys(step(a, n))
  }

  lemma {:induction false} AccumKeepsKeysFor(acc: Proc, visited: seq<(nat, Node)>, m: nat, m': nat, key: string, step: Step)
    requires AllTagged(visited) && m <= m' <= |visited| && StepOk(step) && StepKeepsKeys(step)
    requires key in Keys(Accum(acc, visited[..m], step))
    ensures key in Keys(Accum(acc, visited[..m'], step))
    decreases m' - m
  {
    if m < m' {
      AccumKeepsKeysFor(acc, visited, m, m' - 1, key, step);
      var v := visited[..m'];
      assert v[..m' - 1] == visited[..m' - 1];
      assert Accum(acc, v, step) == step(Accum(acc, visited[..m' - 1], step), v[m' - 1].1);
    }
  }

  lemma VisitKeepsKeys(acc: Proc, n: Node, key: string)
    requires ':' in n.name && key in Keys(acc)
    ensures key in Keys(Visit(acc, n))
  {
    PutKeepsKeys(acc, Tag(n.name), Typecast(n.value), key);
  }

  /** Parameters set earlier in the walk stay set in every later copy: nothing is ever removed. */
  lemma AccumKeepsKeys(acc: Proc, visited: seq<(nat, Node)>, m: nat, m': nat, key: string)
    requires AllTagged(visited) && m <= m' <= |visited|
    requires key in Keys(Accum(acc, visited[..m], Visit))
    ensures key in Keys(Accum(acc, visited[..m'], Visit))
  {
    assert StepOk(Visit);
    forall a: Proc, n: Node, k: string | ':' in n.name && k in Keys(a) ensures k in Keys(Visit(a, n)) {
      VisitKeepsKeys(a, n, k);
    }
    AccumKeepsKeysFor(acc, visited, m, m', key, Visit);
  }

  // ---------------------------------------------------------------- write_dict

  /** `write_dict(dct, child)`: the assignments made, children's subtrees first, then the node itself. */
  function PostOrder(n: Node): seq<(string, string)>
    decreases n, 1
  {
    PostOrderAll(n.children) + [(n.name, n.value)]
  }

  function PostOrderAll(kids: seq<Node>): seq<(string, string)>
    decreases kids, 0
  {
    if kids == [] then [] else PostOrderAll(kids[..|kids| - 1]) + PostOrder(kids[|kids| - 1])
  }

  method WriteDict(dct: Dict<string>, child: Node) returns (dct': Dict<string>)
    ensures dct' == PutAll(dct, PostOrder(child))
    decreases child
  {
    dct' := dct;
    var children := child.children;
    if |children| > 0 {
      for i := 0 to |children|
        invariant dct' == PutAll(dct, PostOrderAll(children[..i]))
      {
        assert children[..i + 1][..i] == children[..i];
        PutAllAppend(dct, PostOrderAll(children[..i]), PostOrder(children[i]));
        dct' := WriteDict(dct', children[i]);
      }
      assert children[..|children|] == children;
    }
    PutAllAppend(dct, PostOrderAll(children), [(child.name, child.value)]);
    dct' := Put(dct', child.name, child.value);
  }

  /** After `write_dict`, the node's own name holds its own value, whatever its descendants are called. */
  lemma WriteDictOwnEntry(dct: Dict<string>, n: Node)
    ensures Get(PutAll(dct, PostOrder(n)), n.name) == Some(n.value)
  {
    PutAllAppend(dct, PostOrderAll(n.children), [(n.name, n.value)]);
  }
}
