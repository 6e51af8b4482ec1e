/**
 * `SequenceUI.build_procedure_sequence_b`: every procedure dictionary whose values include lists
 * is expanded into one dictionary per combination of list elements (`itertools.product`), and
 * `SequenceUI.update_procs_list`.
 */
module Expansion {
  import opened Wrappers
  import opened Text
  import opened Values
  import opened Dicts
  import opened Flattening

  // ---------------------------------------------------------------- the parts of one dictionary

  /** `[k for k, v in dct.items() if isinstance(v, list)]` */
  function ListKeys(d: Proc): (r: seq<string>)
    ensures forall k :: k in r ==> k in Keys(d)
    ensures forall i :: 0 <= i < |d| && d[i].1.List? ==> d[i].0 in r
    ensures forall k :: k in r ==> exists i :: 0 <= i < |d| && d[i].0 == k && d[i].1.List?
  {
    if d == [] then []
    else (if d[0].1.List? then [d[0].0] else []) + ListKeys(d[1..])
  }

  /** `{k: v for k, v in dct.items() if k not in list_keys}` (the keys of a dict are distinct, so this keeps the items in order). */
  function ScalarData(d: Proc, listKeys: seq<string>): Proc
  {
    if d == [] then []
    else (if d[0].0 in listKeys then [] else [d[0]]) + ScalarData(d[1..], listKeys)
  }

  /** `[dct[k] for k in list_keys]`: the lists, in the order of their keys. */
  function ListValues(d: Proc): (r: seq<seq<Value>>)
    ensures |r| == |ListKeys(d)|
  {
    if d == [] then []
    else (if d[0].1.List? then [d[0].1.items] else []) + ListValues(d[1..])
  }

  // ---------------------------------------------------------------- itertools.product

  /** `[x] + c` for every `c` in `rest`. */
  function Prefixed(x: Value, rest: seq<seq<Value>>): (r: seq<seq<Value>>)
    ensures |r| == |rest| && forall i :: 0 <= i < |rest| ==> r[i] == [x] + rest[i]
  {
    seq(|rest|, i requires 0 <= i < |rest| => [x] + rest[i])
  }

  /** Each element of `xs` in turn, followed by each combination of `rest`. */
  function Cross(xs: seq<Value>, rest: seq<seq<Value>>): seq<seq<Value>>
  {
    if xs == [] then [] else Prefixed(xs[0], rest) + Cross(xs[1..], rest)
  }

  /** `list(itertools.product(*lists))`: one element from each list, the first list varying slowest. */
  function Product(lists: seq<seq<Value>>): seq<seq<Value>>
  {
    if lists == [] then [[]] else Cross(lists[0], Product(lists[1..]))
  }

  /** The product of the lengths of the lists. */
  function Combinations(lists: seq<seq<Value>>): nat
  {
    if lists == [] then 1 else |lists[0]| * Combinations(lists[1..])
  }

  lemma {:induction false} CrossSize(xs: seq<Value>, rest: seq<seq<Value>>)
    ensures |Cross(xs, rest)| == |xs| * |rest|
  {
    if xs != [] {
      CrossSize(xs[1..], rest);
      assert |xs| * |rest| == |rest| + (|xs| - 1) * |rest|;
    }
  }

  /** `itertools.product` yields as many combinations as the product of the lengths. */
  lemma {:induction false} ProductSize(lists: seq<seq<Value>>)
    ensures |Product(lists)| == Combinations(lists)
  {
    if lists != [] {
      ProductSize(lists[1..]);
      CrossSize(lists[0], Product(lists[1..]));
    }
  }

  lemma MulMono(a: nat, x: nat, n: nat)
    requires a <= x
    ensures a * n <= x * n
  {
  }

  /** Row `a` of a table with rows of length `n` starts at `a * n`. */
  lemma RowStart(a: nat, x: nat, n: nat, b: nat)
    requires a < x && b < n
    ensures a * n + b < x * n
    ensures a > 0 ==> a * n + b == n + ((a - 1) * n + b)
  {
    MulMono(a + 1, x, n);
  }

  /** The combination at `a * |rest| + b` starts with the a-th element and continues with the b-th combination of the rest. */
  lemma {:induction false} CrossAt(xs: seq<Value>, rest: seq<seq<Value>>, a: nat, b: nat)
    requires a < |xs| && b < |rest|
    ensures a * |rest| + b < |Cross(xs, rest)|
    ensures Cross(xs, rest)[a * |rest| + b] == [xs[a]] + rest[b]
  {
    CrossSize(xs, rest);
    RowStart(a, |xs|, |rest|, b);
    var c := Cross(xs, rest);
    assert c == Prefixed(xs[0], rest) + Cross(xs[1..], rest);
    if a > 0 {
      CrossAt(xs[1..], rest, a - 1, b);
      var m := (a - 1) * |rest| + b;
      assert c[|rest| + m] == Cross(xs[1..], rest)[m];
    }
  }

  /** The first list varies slowest: the combination at `i = a * |P| + b`, with `P` the product of the other lists. */
  lemma ProductOrder(lists: seq<seq<Value>>, a: nat, b: nat, i: nat)
    requires lists != [] && a < |lists[0]| && b < |Product(lists[1..])|
    requires i == a * |Product(lists[1..])| + b
    ensures i < |Product(lists)| && Product(lists)[i] == [lists[0][a]] + Product(lists[1..])[b]
  {
    var all, rest := Product(lists), Product(lists[1..]);
    assert all == Cross(lists[0], rest);
    CrossAt(lists[0], rest, a, b);
    assert a * |rest| + b < |all| && all[a * |rest| + b] == [lists[0][a]] + rest[b];
  }

  lemma {:induction false} CrossMembers(xs: seq<Value>, rest: seq<seq<Value>>, c: seq<Value>)
    requires c in Cross(xs, rest)
    ensures |c| >= 1 && c[0] in xs && c[1..] in rest
  {
    if c in Prefixed(xs[0], rest) {
      var i :| 0 <= i < |rest| && Prefixed(xs[0], rest)[i] == c;
      assert c[1..] == rest[i];
    } else {
      CrossMembers(xs[1..], rest, c);
    }
  }

  /** Every combination takes its j-th element from the j-th list. */
  lemma {:induction false} ProductMembers(lists: seq<seq<Value>>, c: seq<Value>)
    requires c in Product(lists)
    ensures |c| == |lists| && forall j :: 0 <= j < |lists| ==> c[j] in lists[j]
  {
    if lists != [] {
      CrossMembers(lists[0], Product(lists[1..]), c);
      ProductMembers(lists[1..], c[1..]);
      forall j | 1 <= j < |lists| ensures c[j] in lists[j] {
        assert c[1..][j - 1] == c[j] && lists[1..][j - 1] == lists[j];
      }
    }
  }

  lemma {:induction false} CrossContains(xs: seq<Value>, rest: seq<seq<Value>>, x: Value, r: seq<Value>)
    requires x in xs && r in rest
    ensures [x] + r in Cross(xs, rest)
  {
    if x == xs[0] {
      var i :| 0 <= i < |rest| && rest[i] == r;
      assert Prefixed(xs[0], rest)[i] == [x] + r;
    } else {
      CrossContains(xs[1..], rest, x, r);
    }
  }

  /** Every choice of one element per list is a combination. */
  lemma {:induction false} ProductComplete(lists: seq<seq<Value>>, c: seq<Value>)
    requires |c| == |lists| && forall j :: 0 <= j < |lists| ==> c[j] in lists[j]
    ensures c in Product(lists)
  {
    if lists != [] {
      forall j | 0 <= j < |lists[1..]| ensures c[1..][j] in lists[1..][j] {
        assert c[1..][j] == c[j + 1];
      }
      ProductComplete(lists[1..], c[1..]);
      CrossContains(lists[0], Product(lists[1..]), c[0], c[1..]);
      assert [c[0]] + c[1..] == c;
    }
  }

  // ---------------------------------------------------------------- one dictionary, expanded

  /** `zip(keys, values)`, which stops at the shorter. */
  function Zip(keys: seq<string>, values: seq<Value>): (r: seq<(string, Value)>)
    ensures |r| == if |keys| <= |values| then |keys| else |values|
    ensures forall i :: 0 <= i < |r| ==> r[i] == (keys[i], values[i])
  {
    var n := if |keys| <= |values| then |keys| else |values|;
    seq(n, i requires 0 <= i < n => (keys[i], values[i]))
  }

  /** `item = scalar_data.copy(); item.update(zip(list_keys, combination))` */
  function Combine(scalars: Proc, listKeys: seq<string>, combination: seq<Value>): Proc {
    PutAll(scalars, Zip(listKeys, combination))
  }

  /** The dictionaries `build_procedure_sequence_b` makes from one dictionary `dct`, in order. */
  function ExpandOne(d: Proc): (r: seq<Proc>)
    ensures |r| == |Product(ListValues(d))|
  {
    var lk := ListKeys(d);
    var sd := ScalarData(d, lk);
    var p := Product(ListValues(d));
    seq(|p|, i requires 0 <= i < |p| => Combine(sd, lk, p[i]))
  }

  /** `build_procedure_sequence_b(sequence_list)`: each dictionary expanded, in the order of the list. */
  function Expand(sequence: seq<Proc>): seq<Proc>
  {
    if sequence == [] then []
    else Expand(sequence[..|sequence| - 1]) + ExpandOne(sequence[|sequence| - 1])
  }

  method BuildB(sequence: seq<Proc>) returns (expanded: seq<Proc>)
    ensures expanded == Expand(sequence)
  {
    expanded := [];
    for n := 0 to |sequence|
      invariant expanded == Expand(sequence[..n])
    {
      var d := sequence[n];
      var listKeys := ListKeys(d);
      var scalarData := ScalarData(d, listKeys);
      var listValues := ListValues(d);
      var combinations := Product(listValues);
      var flattened := [];
      for j := 0 to |combinations|
        invariant flattened == ExpandOne(d)[..j]
      {
        var item := PutAll(scalarData, Zip(listKeys, combinations[j]));
        TakeSnoc(ExpandOne(d), j);
        flattened := flattened + [item];
      }
      TakeSnoc(sequence, n);
      TakeAll(ExpandOne(d));
      expanded := expanded + flattened;
    }
    TakeAll(sequence);
  }

  // ---------------------------------------------------------------- what the expansion keeps

  /** Keys outside the list keys read the same in the scalar part as in the dictionary. */
  lemma {:induction false} ScalarGet(d: Proc, listKeys: seq<string>, k: string)
    requires k !in listKeys
    ensures Get(ScalarData(d, listKeys), k) == Get(d, k)
  {
    if d != [] {
      ScalarGet(d[1..], listKeys, k);
      var rest := ScalarData(d[1..], listKeys);
      if d[0].0 in listKeys {
        assert ScalarData(d, listKeys) == rest;
      } else {
        assert ScalarData(d, listKeys) == [d[0]] + rest;
        assert ([d[0]] + rest)[1..] == rest;
      }
    }
  }

  /** The scalar part of a dictionary with no list keys is the whole dictionary. */
  lemma {:induction false} ScalarDataAll(d: Proc)
    ensures ScalarData(d, []) == d
  {
    if d != [] {
      ScalarDataAll(d[1..]);
    }
  }

  /** In a dict, the list keys are distinct. */
  lemma {:induction false} ListKeysDistinct(d: Proc)
    requires DistinctKeys(d)
    ensures forall i, j :: 0 <= i < j < |ListKeys(d)| ==> ListKeys(d)[i] != ListKeys(d)[j]
  {
    if d != [] {
      DistinctCons(d);
      ListKeysDistinct(d[1..]);
      var rest := ListKeys(d[1..]);
      assert d[0].0 !in rest;
    }
  }

  /** In a dict, a key is a list key exactly when it holds a list. */
  lemma {:induction false} ListKeysExact(d: Proc, k: string)
    requires DistinctKeys(d)
    ensures k in ListKeys(d) <==> Get(d, k).Some? && Get(d, k).value.List?
  {
    if d != [] {
      DistinctCons(d);
      ListKeysExact(d[1..], k);
    }
  }

  /** A dict none of whose values is a list has no list keys. */
  lemma {:induction false} NoListKeys(d: Proc)
    requires forall i :: 0 <= i < |d| ==> !d[i].1.List?
    ensures ListKeys(d) == []
  {
    if d != [] {
      assert !d[0].1.List?;
      assert forall i :: 0 <= i < |d[1..]| ==> d[1..][i] == d[i + 1];
      NoListKeys(d[1..]);
    }
  }

  /** A list key names its own list. */
  lemma {:induction false} ListValuesAt(d: Proc, t: nat)
    requires DistinctKeys(d) && t < |ListKeys(d)|
    ensures Get(d, ListKeys(d)[t]) == Some(List(ListValues(d)[t]))
  {
    DistinctCons(d);
    if d[0].1.List? && t == 0 {
    } else {
      var t' := if d[0].1.List? then t - 1 else t;
      ListValuesAt(d[1..], t');
      assert ListKeys(d)[t] == ListKeys(d[1..])[t'];
      assert ListKeys(d)[t] in Keys(d[1..]);
    }
  }

  /**
   * Each expanded dictionary keeps every scalar entry of the original and gives the t-th list key
   * the t-th element of its combination, which belongs to that key's list.
   */
  lemma ExpandOneEntries(d: Proc, i: nat)
    requires DistinctKeys(d) && i < |ExpandOne(d)|
    ensures |Product(ListValues(d))[i]| == |ListKeys(d)|
    ensures forall k :: k !in ListKeys(d) ==> Get(ExpandOne(d)[i], k) == Get(d, k)
    ensures forall t :: 0 <= t < |ListKeys(d)| ==>
      Get(ExpandOne(d)[i], ListKeys(d)[t]) == Some(Product(ListValues(d))[i][t])
      && Product(ListValues(d))[i][t] in ListValues(d)[t]
  {
    var lk := ListKeys(d);
    var c := Product(ListValues(d))[i];
    ProductMembers(ListValues(d), c);
    var z := Zip(lk, c);
    assert |z| == |lk|;
    forall k | k !in lk ensures Get(ExpandOne(d)[i], k) == Get(d, k) {
      GetPutAll(ScalarData(d, lk), z, k);
      ScalarGet(d, lk, k);
    }
    ListKeysDistinct(d);
    forall t | 0 <= t < |lk| ensures Get(ExpandOne(d)[i], lk[t]) == Some(c[t]) {
      GetPutAll(ScalarData(d, lk), z, lk[t]);
      assert z[t].0 == lk[t];
      assert LastIndexOf(z, lk[t]) == t;
    }
  }

  /** A dictionary without list values comes out unchanged, once. */
  lemma ExpandNoLists(d: Proc)
    requires forall i :: 0 <= i < |d| ==> !d[i].1.List?
    ensures ExpandOne(d) == [d]
  {
    NoListKeys(d);
    ScalarDataAll(d);
    assert ListValues(d) == [];
    assert Zip([], []) == [];
  }

  /** A list key whose list is empty makes the dictionary vanish from the expansion. */
  lemma {:induction false} ProductOfEmpty(lists: seq<seq<Value>>, t: nat)
    requires t < |lists| && lists[t] == []
    ensures Product(lists) == []
  {
    if t == 0 {
    } else {
      ProductOfEmpty(lists[1..], t - 1);
      CrossOfEmpty(lists[0]);
    }
  }

  lemma {:induction false} CrossOfEmpty(xs: seq<Value>)
    ensures Cross(xs, []) == []
  {
    if xs != [] {
      CrossOfEmpty(xs[1..]);
    }
  }

  lemma ExpandEmptyList(d: Proc, t: nat)
    requires t < |ListValues(d)| && ListValues(d)[t] == []
    ensures ExpandOne(d) == []
  {
    ProductOfEmpty(ListValues(d), t);
  }

  // ---------------------------------------------------------------- update_procs_list

  /** `{key: v}` updated with `proc`: the proc's own entries win, `key` stays first. */
  function Seeded(proc: Proc, key: string, v: Value): Proc {
    PutAll([(key, v)], proc)
  }

  /**
   * `update_procs_list(procs, key, val)` as a specification: a list value multiplies the
   * procedures, one per element in element order, the procedures in their order; any other value
   * is set under `key` in every procedure.
   */
  function UpdatedProcs(procs: seq<Proc>, key: string, val: Value): seq<Proc>
    requires !val.Evaluated?
  {
    if val.List? then ListUpdated(procs, key, val.items)
    else seq(|procs|, i requires 0 <= i < |procs| => Put(procs[i], key, val))
  }

  /** The list case of `UpdatedProcs`: one block per procedure, in the procedures' order. */
  function ListUpdated(procs: seq<Proc>, key: string, items: seq<Value>): seq<Proc> {
    if procs == [] then []
    else ListUpdated(procs[..|procs| - 1], key, items) + Block(procs[|procs| - 1], key, items)
  }

  /** The procedures one procedure becomes: one per element, in element order. */
  function Block(proc: Proc, key: string, items: seq<Value>): (r: seq<Proc>)
    ensures |r| == |items|
  {
    seq(|items|, i requires 0 <= i < |items| => Seeded(proc, key, items[i]))
  }

  method UpdateProcsList(procs: seq<Proc>, key: string, val: Value) returns (newProcs: seq<Proc>)
    requires !val.Evaluated?
    ensures newProcs == UpdatedProcs(procs, key, val)
  {
    if val.List? {
      newProcs := [];
      for p := 0 to |procs|
        invariant newProcs == UpdatedProcs(procs[..p], key, val)
      {
        var procList := seq(|val.items|, i requires 0 <= i < |val.items| => [(key, val.items[i])]);
        for j := 0 to |procList|
          invariant |procList| == |val.items|
          invariant forall i :: 0 <= i < j ==> procList[i] == Seeded(procs[p], key, val.items[i])
          invariant forall i :: j <= i < |procList| ==> procList[i] == [(key, val.items[i])]
        {
          procList := procList[j := PutAll(procList[j], procs[p])];
        }
        TakeSnoc(procs, p);
        assert procList == Block(procs[p], key, val.items);
        newProcs := newProcs + procList;
      }
      TakeAll(procs);
    } else {
      newProcs := procs;
      for p := 0 to |newProcs|
        invariant |newProcs| == |procs|
        invariant forall i :: 0 <= i < p ==> newProcs[i] == Put(procs[i], key, val)
        invariant forall i :: p <= i < |procs| ==> newProcs[i] == procs[i]
      {
        PutAllOne(procs[p], key, val);
        newProcs := newProcs[p := PutAll(newProcs[p], [(key, val)])];
      }
    }
  }

  /**
   * After a list update there are |procs| * |items| procedures; the one for procedure p and
   * element i holds the element under `key` unless the procedure already had `key`, whose own
   * value then wins, and every other entry of the procedure.
   */
  lemma UpdatedList(procs: seq<Proc>, key: string, items: seq<Value>, p: nat, i: nat)
    requires p < |procs| && i < |items| && DistinctKeys(procs[p])
    ensures |UpdatedProcs(procs, key, List(items))| == |procs| * |items|
    ensures p * |items| + i < |procs| * |items|
    ensures var r := UpdatedProcs(procs, key, List(items))[p * |items| + i];
      && (forall k :: k != key ==> Get(r, k) == Get(procs[p], k))
      && Get(r, key) == (if key in Keys(procs[p]) then Get(procs[p], key) else Some(items[i]))
  {
    UpdatedListAt(procs, key, items, p, i);
    UpdatedListSize(procs, key, items);
    UpdatedListSize(procs[..p], key, items);
    var r := Seeded(procs[p], key, items[i]);
    SeededGet(procs[p], key, items[i], key);
    forall k | k != key
      ensures Get(r, k) == Get(procs[p], k)
    {
      SeededGet(procs[p], key, items[i], k);
    }
  }

  /** Procedure p's block starts where the blocks of the procedures before it end. */
  lemma UpdatedListAt(procs: seq<Proc>, key: string, items: seq<Value>, p: nat, i: nat)
    requires p < |procs| && i < |items|
    ensures |ListUpdated(procs[..p], key, items)| + i < |ListUpdated(procs, key, items)|
    ensures ListUpdated(procs, key, items)[|ListUpdated(procs[..p], key, items)| + i]
      == Seeded(procs[p], key, items[i])
  {
    var before, block := ListUpdated(procs[..p], key, items), Block(procs[p], key, items);
    var upTo, all := ListUpdated(procs[..p + 1], key, items), ListUpdated(procs, key, items);
    ListUpdatedSnoc(procs, key, items, p);
    IndexRight(before, block, i);
    ListUpdatedPrefix(procs, key, items, p + 1);
    PrefixIndex(all, upTo, |before| + i); assert all[|before| + i] == Seeded(procs[p], key, items[i]); assert |before| + i < |all|;
  }

  /** One more procedure adds its block at the end. */
  lemma ListUpdatedSnoc(procs: seq<Proc>, key: string, items: seq<Value>, p: nat)
    requires p < |procs|
    ensures ListUpdated(procs[..p + 1], key, items) == ListUpdated(procs[..p], key, items) + Block(procs[p], key, items)
  {
    TakeSnoc(procs, p);
  }

  /** The blocks of a prefix of the procedures are a prefix of all the blocks. */
  lemma {:induction false} ListUpdatedPrefix(procs: seq<Proc>, key: string, items: seq<Value>, n: nat)
    requires n <= |procs|
    ensures |ListUpdated(procs[..n], key, items)| <= |ListUpdated(procs, key, items)|
    ensures ListUpdated(procs, key, items)[..|ListUpdated(procs[..n], key, items)|] == ListUpdated(procs[..n], key, items)
    decreases |procs|
  {
    if n == |procs| {
      TakeAll(procs);
      TakeAll(ListUpdated(procs, key, items));
    } else {
      var front := procs[..|procs| - 1];
      ListUpdatedPrefix(front, key, items, n);
      TakeTake(procs, |procs| - 1, n);
      TakeAppend(ListUpdated(front, key, items), Block(procs[|procs| - 1], key, items), |ListUpdated(procs[..n], key, items)|);
    }
  }

  /** `{key: v}` updated with the procedure: the procedure's own value for `key` wins. */
  lemma SeededGet(proc: Proc, key: string, v: Value, k: string)
    requires DistinctKeys(proc)
    ensures Get(Seeded(proc, key, v), k) == (if k == key && k !in Keys(proc) then Some(v) else Get(proc, k))
  {
    GetPutAll([(key, v)], proc, k);
    InKeys(proc, k);
    if k in Keys(proc) {
      GetLast(proc, k);
    }
  }

  lemma {:induction false} UpdatedListSize(procs: seq<Proc>, key: string, items: seq<Value>)
    ensures |ListUpdated(procs, key, items)| == |procs| * |items|
    decreases |procs|
  {
    if procs != [] {
      UpdatedListSize(procs[..|procs| - 1], key, items);
      assert |procs| * |items| == (|procs| - 1) * |items| + |items|;
    }
  }

  /** After a scalar update, every procedure holds `val` under `key` and is otherwise unchanged. */
  lemma UpdatedScalar(procs: seq<Proc>, key: string, val: Value, p: nat)
    requires !val.Evaluated? && !val.List? && p < |procs|
    ensures |UpdatedProcs(procs, key, val)| == |procs|
    ensures Get(UpdatedProcs(procs, key, val)[p], key) == Some(val)
    ensures forall k :: k != key ==> Get(UpdatedProcs(procs, key, val)[p], k) == Get(procs[p], k)
  {
  }
}
