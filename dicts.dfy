/**
 * Python's insertion-ordered `dict` with text keys, as the list of its items in order.
 * `d[k] = v` replaces the value of an existing key where it stands and appends a new key at the end.
 */
module Dicts {
  import opened Wrappers
  import opened Text

  type Dict<V> = seq<(string, V)>

  /** `list(d.keys())` */
  function Keys<V>(d: Dict<V>): (r: seq<string>)
    ensures |r| == |d|
  {
    if d == [] then [] else [d[0].0] + Keys(d[1..])
  }

  lemma {:induction false} KeysAt<V>(d: Dict<V>, i: nat)
    requires i < |d|
    ensures Keys(d)[i] == d[i].0
  {
    if i > 0 {
      KeysAt(d[1..], i - 1);
    }
  }

  /** What a Python dict always satisfies: no key twice. */
  predicate DistinctKeys<V>(d: Dict<V>) {
    forall i, j :: 0 <= i < j < |d| ==> d[i].0 != d[j].0
  }

  /** `d.get(k)` */
  function Get<V>(d: Dict<V>, k: string): (r: Option<V>)
    ensures r.Some? <==> k in Keys(d)
  {
    if d == [] then None
    else if d[0].0 == k then Some(d[0].1)
    else Get(d[1..], k)
  }

  /** `d[k] = v` */
  function Put<V>(d: Dict<V>, k: string, v: V): (r: Dict<V>)
    ensures Get(r, k) == Some(v)
    ensures forall k' :: k' != k ==> Get(r, k') == Get(d, k')
    ensures Keys(r) == if k in Keys(d) then Keys(d) else Keys(d) + [k]
  {
    if d == [] then [(k, v)]
    else if d[0].0 == k then [(k, v)] + d[1..]
    else
      var rest := Put(d[1..], k, v);
      assert ([d[0]] + rest)[1..] == rest;
      [d[0]] + rest
  }

  /** `d[k] = v` removes no key. */
  lemma PutKeepsKeys<V>(d: Dict<V>, k: string, v: V, key: string)
    requires key in Keys(d)
    ensures key in Keys(Put(d, k, v))
  {
    if k !in Keys(d) {
      assert Keys(Put(d, k, v)) == Keys(d) + [k];
    }
  }

  /** A first key that appears nowhere in the rest. */
  lemma {:induction false} DistinctCons<V>(d: Dict<V>)
    requires d != []
    ensures DistinctKeys(d) <==> DistinctKeys(d[1..]) && d[0].0 !in Keys(d[1..])
  {
    if DistinctKeys(d) {
      forall j | 0 <= j < |d[1..]| ensures Keys(d[1..])[j] != d[0].0 {
        KeysAt(d[1..], j);
        assert d[1..][j] == d[j + 1];
      }
    }
    if DistinctKeys(d[1..]) && d[0].0 !in Keys(d[1..]) {
      forall i, j | 0 <= i < j < |d| ensures d[i].0 != d[j].0 {
        if i == 0 {
          KeysAt(d[1..], j - 1);
        } else {
          assert d[i] == d[1..][i - 1] && d[j] == d[1..][j - 1];
        }
      }
    }
  }

  /** `d[k] = v` keeps the keys distinct. */
  lemma {:induction false} PutDistinct<V>(d: Dict<V>, k: string, v: V)
    requires DistinctKeys(d)
    ensures DistinctKeys(Put(d, k, v))
  {
    var r := Put(d, k, v);
    if d == [] {
    } else if d[0].0 == k {
      DistinctCons(d);
      DistinctCons(r);
      assert r[1..] == d[1..];
    } else {
      DistinctCons(d);
      PutDistinct(d[1..], k, v);
      assert r[1..] == Put(d[1..], k, v);
      DistinctCons(r);
    }
  }

  /** `d.update(items)` for a sequence of pairs: one `d[k] = v` after the other. */
  function PutAll<V>(d: Dict<V>, items: seq<(string, V)>): Dict<V>
    decreases |items|
  {
    if items == [] then d else PutAll(Put(d, items[0].0, items[0].1), items[1..])
  }

  /** Updating with one pair is setting its key. */
  lemma PutAllOne<V>(d: Dict<V>, k: string, v: V)
    ensures PutAll(d, [(k, v)]) == Put(d, k, v)
  {
    assert [(k, v)][1..] == [];
  }

  /** Updating with `a + b` is updating with `a`, then with `b`. */
  lemma {:induction false} PutAllAppend<V>(d: Dict<V>, a: seq<(string, V)>, b: seq<(string, V)>)
    ensures PutAll(d, a + b) == PutAll(PutAll(d, a), b)
    decreases |a|
  {
    if a == [] {
      assert a + b == b;
    } else {
      assert (a + b)[1..] == a[1..] + b;
      PutAllAppend(Put(d, a[0].0, a[0].1), a[1..], b);
    }
  }

  /** `d[k] = v` for a key `d` does not have appends the pair. */
  lemma {:induction false} PutAbsent<V>(d: Dict<V>, k: string, v: V)
    requires k !in Keys(d)
    ensures Put(d, k, v) == d + [(k, v)]
  {
    if d != [] {
      assert Keys(d) == [d[0].0] + Keys(d[1..]);
      assert d[0].0 != k && k !in Keys(d[1..]);
      PutAbsent(d[1..], k, v);
      AppendAssoc([d[0]], d[1..], [(k, v)]);
      FirstRest(d);
    }
  }

  /** `update` with keys that are all new and distinct appends the pairs in order. */
  lemma {:induction false} PutAllFresh<V>(d: Dict<V>, items: seq<(string, V)>)
    requires DistinctKeys(d + items)
    ensures PutAll(d, items) == d + items
    decreases |items|
  {
    if items != [] {
      var k := items[0].0;
      var e := d + items;
      assert k !in Keys(d) by {
        forall i | 0 <= i < |d| ensures Keys(d)[i] != k {
          KeysAt(d, i);
          assert e[i] == d[i] && e[|d|] == items[0];
        }
      }
      PutAbsent(d, k, items[0].1);
      FirstRest(items);
      AppendAssoc(d, [items[0]], items[1..]);
      PutAllFresh(d + [items[0]], items[1..]);
    }
  }

  /** Some pair carries the key `k`. */
  predicate Names<V>(items: seq<(string, V)>, k: string) {
    exists i :: 0 <= i < |items| && items[i].0 == k
  }

  lemma NamesCons<V>(items: seq<(string, V)>, k: string)
    requires items != []
    ensures Names(items, k) <==> items[0].0 == k || Names(items[1..], k)
  {
    if Names(items, k) && items[0].0 != k {
      var i :| 0 <= i < |items| && items[i].0 == k;
      assert items[1..][i - 1] == items[i];
    }
    if Names(items[1..], k) {
      var i :| 0 <= i < |items[1..]| && items[1..][i].0 == k;
      assert items[i + 1] == items[1..][i];
    }
  }

  /** The position of the last pair with key `k`. */
  function LastIndexOf<V>(items: seq<(string, V)>, k: string): (i: nat)
    requires Names(items, k)
    ensures i < |items| && items[i].0 == k
    ensures forall j :: i < j < |items| ==> items[j].0 != k
  {
    if exists j :: 1 <= j < |items| && items[j].0 == k then
      var j :| 1 <= j < |items| && items[j].0 == k;
      assert items[1..][j - 1].0 == k;
      1 + LastIndexOf(items[1..], k)
    else 0
  }

  lemma LastIndexTail<V>(items: seq<(string, V)>, k: string)
    requires items != [] && Names(items[1..], k)
    ensures Names(items, k) && LastIndexOf(items, k) == 1 + LastIndexOf(items[1..], k)
  {
    var i := LastIndexOf(items[1..], k);
    assert items[i + 1] == items[1..][i];
  }

  lemma LastIndexHead<V>(items: seq<(string, V)>, k: string)
    requires items != [] && items[0].0 == k && !Names(items[1..], k)
    ensures Names(items, k) && LastIndexOf(items, k) == 0
  {
    if exists j :: 1 <= j < |items| && items[j].0 == k {
      assert false;
    }
  }

  /** After `update`, a key holds the value of its last pair, or what it held before when no pair names it. */
  lemma {:induction false} GetPutAll<V>(d: Dict<V>, items: seq<(string, V)>, k: string)
    ensures Get(PutAll(d, items), k) == if Names(items, k) then Some(items[LastIndexOf(items, k)].1) else Get(d, k)
    decreases |items|
  {
    if items != [] {
      var d' := Put(d, items[0].0, items[0].1);
      GetPutAll(d', items[1..], k);
      NamesCons(items, k);
      if Names(items[1..], k) {
        LastIndexTail(items, k);
      } else if items[0].0 == k {
        LastIndexHead(items, k);
      }
    }
  }

  /** A key is present exactly when some pair carries it. */
  lemma InKeys<V>(d: Dict<V>, k: string)
    ensures k in Keys(d) <==> exists i :: 0 <= i < |d| && d[i].0 == k
  {
    forall i | 0 <= i < |d| ensures Keys(d)[i] == d[i].0 {
      KeysAt(d, i);
    }
  }

  /** With distinct keys, the first pair with a key is also the last. */
  lemma {:induction false} GetLast<V>(d: Dict<V>, k: string)
    requires DistinctKeys(d) && k in Keys(d)
    ensures Names(d, k)
    ensures Get(d, k) == Some(d[LastIndexOf(d, k)].1)
  {
    InKeys(d, k);
    var l := LastIndexOf(d, k);
    if d[0].0 != k {
      assert 1 <= l && d[1..][l - 1].0 == k;
      InKeys(d[1..], k);
      DistinctCons(d);
      GetLast(d[1..], k);
    }
  }
}
