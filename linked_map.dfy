/**
 * `java.util.LinkedHashMap` as used for loading results: the keys in insertion order beside
 * the value of each key.
 */
module LinkedMaps {

  datatype LinkedMap<K(==), V> = LinkedMap(keys: seq<K>, values: map<K, V>)

  /** The keys are distinct and are exactly the keys that have a value. */
  predicate Valid<K(==), V>(m: LinkedMap<K, V>) {
    && (forall i, j :: 0 <= i < j < |m.keys| ==> m.keys[i] != m.keys[j])
    && (forall k | k in m.values :: k in m.keys)
    && (forall i | 0 <= i < |m.keys| :: m.keys[i] in m.values)
  }

  /** `new LinkedHashMap<>()`. */
  function Empty<K(==), V>(): (m: LinkedMap<K, V>)
    ensures Valid(m) && m.keys == []
  {
    LinkedMap([], map[])
  }

  /**
   * `put(k, v)`: `k` now maps to `v`; an existing key keeps its place in the order, a new key
   * goes last; the map stays well formed.
   */
  function Put<K(==), V>(m: LinkedMap<K, V>, k: K, v: V): (m': LinkedMap<K, V>)
    requires Valid(m)
    ensures Valid(m')
    ensures m'.values == m.values[k := v]
    ensures k in m.values ==> m'.keys == m.keys
    ensures k !in m.values ==> m'.keys == m.keys + [k]
  {
    if k in m.values then LinkedMap(m.keys, m.values[k := v])
    else LinkedMap(m.keys + [k], m.values[k := v])
  }

  /** Putting the value a key already has changes nothing. */
  lemma PutSame<K, V>(m: LinkedMap<K, V>, k: K, v: V)
    requires Valid(m) && k in m.values && m.values[k] == v
    ensures Put(m, k, v) == m
  {
    assert m.values[k := v] == m.values;
  }

  /** `values()`: the value of each key, in key order. */
  function Values<K(==), V>(m: LinkedMap<K, V>): (vs: seq<V>)
    requires Valid(m)
    ensures |vs| == |m.keys|
    ensures forall i :: 0 <= i < |vs| ==> vs[i] == m.values[m.keys[i]]
  {
    seq(|m.keys|, i requires 0 <= i < |m.keys| && Valid(m) => m.values[m.keys[i]])
  }

  /** Putting a new key adds its value at the end of `values()`. */
  lemma PutNewValues<K, V>(m: LinkedMap<K, V>, k: K, v: V)
    requires Valid(m) && k !in m.values
    ensures Values(Put(m, k, v)) == Values(m) + [v]
  {
    var vs := Values(Put(m, k, v));
    assert forall i :: 0 <= i < |m.keys| ==> vs[i] == m.values[m.keys[i]];
  }

  // ----- loading a list of entries --------------------------------------------------------------

  /** The position of the first entry with key `k`, or the length when there is none. */
  function FirstIndex<K(==), V>(es: seq<(K, V)>, k: K): (i: nat)
    ensures i <= |es|
    ensures i < |es| ==> es[i].0 == k
    ensures forall j :: 0 <= j < i ==> es[j].0 != k
  {
    if es == [] then 0
    else if es[0].0 == k then 0
    else 1 + FirstIndex(es[1..], k)
  }

  /** The value of the last entry with key `k`. */
  function Latest<K(==), V>(es: seq<(K, V)>, k: K): (v: V)
    requires FirstIndex(es, k) < |es|
    ensures (k, v) in es
  {
    var last := es[|es| - 1];
    if last.0 == k then last.1
    else
      assert FirstIndex(es[..|es| - 1], k) < |es| - 1 by {
        var i := FirstIndex(es, k);
        assert i < |es| - 1 && es[..|es| - 1][i].0 == k;
      }
      Latest(es[..|es| - 1], k)
  }

  /** `put` of each entry in turn, starting from an empty map. */
  function Load<K(==), V>(es: seq<(K, V)>): (m: LinkedMap<K, V>)
    ensures Valid(m)
  {
    if es == [] then Empty() else Put(Load(es[..|es| - 1]), es[|es| - 1].0, es[|es| - 1].1)
  }

  /** `put` of each entry in turn into a new map, as a loop. */
  method LoadEntries<K(==), V>(es: seq<(K, V)>) returns (m: LinkedMap<K, V>)
    ensures m == Load(es)
  {
    m := Empty();
    for i := 0 to |es|
      invariant m == Load(es[..i])
    {
      assert es[..i + 1][..i] == es[..i];
      m := Put(m, es[i].0, es[i].1);
    }
    assert es[..|es|] == es;
  }

  /** A key that no earlier entry has is not in the map loaded from those entries. */
  lemma {:induction false} LoadMissing<K, V>(es: seq<(K, V)>, k: K)
    requires forall i :: 0 <= i < |es| ==> es[i].0 != k
    ensures k !in Load(es).values
  {
    if es != [] {
      LoadMissing(es[..|es| - 1], k);
    }
  }

  /** No entry repeats the key of an earlier one. */
  predicate NewKeys<K(==), V>(es: seq<(K, V)>) {
    es == [] || (NewKeys(es[..|es| - 1]) && forall i :: 0 <= i < |es| - 1 ==> es[i].0 != es[|es| - 1].0)
  }

  /** Entries whose keys are pairwise distinct each bring a new key. */
  lemma {:induction false} DistinctNewKeys<K, V>(es: seq<(K, V)>)
    requires forall i, j :: 0 <= i < j < |es| ==> es[i].0 != es[j].0
    ensures NewKeys(es)
  {
    if es != [] {
      var p := es[..|es| - 1];
      assert forall i :: 0 <= i < |p| ==> p[i] == es[i];
      DistinctNewKeys(p);
    }
  }

  /** Entries that each bring a new key load as a map with those keys in list order and those values. */
  lemma {:induction false} LoadDistinct<K, V>(es: seq<(K, V)>)
    requires NewKeys(es)
    ensures |Load(es).keys| == |es|
    ensures forall i :: 0 <= i < |es| ==> Load(es).keys[i] == es[i].0 && Load(es).values[es[i].0] == es[i].1
  {
    if es != [] {
      var p, e := es[..|es| - 1], es[|es| - 1];
      LoadDistinct(p);
      assert forall i :: 0 <= i < |p| ==> p[i] == es[i];
      LoadMissing(p, e.0);
      var m0, m := Load(p), Load(es);
      assert m.values == m0.values[e.0 := e.1] && m.keys == m0.keys + [e.0];
      forall i | 0 <= i < |es| ensures m.keys[i] == es[i].0 && m.values[es[i].0] == es[i].1 {
        if i < |p| {
          var k := p[i].0;
          assert es[i] == p[i] && k != e.0;
          assert m.keys[i] == m0.keys[i] == k && k in m0.values;
          assert m.values[k] == m0.values[k];
        }
      }
    }
  }

  /** The entries of a map, `entrySet()` in key order. */
  function Items<K(==), V>(m: LinkedMap<K, V>): (es: seq<(K, V)>)
    requires Valid(m)
    ensures |es| == |m.keys| && forall i :: 0 <= i < |es| ==> es[i] == (m.keys[i], m.values[m.keys[i]])
  {
    seq(|m.keys|, i requires 0 <= i < |m.keys| && Valid(m) => (m.keys[i], m.values[m.keys[i]]))
  }

  /** Putting the entries of a map into a new map, in order, rebuilds the map. */
  lemma LoadItems<K, V>(m: LinkedMap<K, V>)
    requires Valid(m)
    ensures Load(Items(m)) == m
  {
    var es := Items(m);
    DistinctNewKeys(es);
    LoadDistinct(es);
    var l := Load(es);
    assert l.keys == m.keys;
    assert l.values == m.values by {
      forall k | k in m.values ensures k in l.values && l.values[k] == m.values[k] {
        var i :| 0 <= i < |m.keys| && m.keys[i] == k;
        assert es[i].0 == k;
      }
    }
  }

  /** Where a key first appears once one more entry is added at the end. */
  lemma FirstIndexSnoc<K, V>(p: seq<(K, V)>, e: (K, V), k: K)
    ensures FirstIndex(p + [e], k) == if FirstIndex(p, k) < |p| then FirstIndex(p, k) else if e.0 == k then |p| else |p| + 1
  {
    var i := FirstIndex(p, k);
    if i < |p| {
      assert (p + [e])[i] == p[i];
    } else if e.0 == k {
      assert (p + [e])[|p|] == e;
    }
  }

  /** The keys of the loaded map are the keys of the entries. */
  lemma {:induction false} LoadKeys<K, V>(es: seq<(K, V)>)
    ensures forall k :: k in Load(es).values <==> FirstIndex(es, k) < |es|
  {
    if es != [] {
      var p, e := es[..|es| - 1], es[|es| - 1];
      LoadKeys(p);
      assert p + [e] == es;
      forall k ensures k in Load(es).values <==> FirstIndex(es, k) < |es| {
        FirstIndexSnoc(p, e, k);
      }
    }
  }

  /** Each key of the loaded map holds the value of its last entry. */
  lemma {:induction false} LoadLatest<K, V>(es: seq<(K, V)>)
    ensures forall k :: k in Load(es).values ==> FirstIndex(es, k) < |es| && Load(es).values[k] == Latest(es, k)
  {
    LoadKeys(es);
    if es != [] {
      var p, e := es[..|es| - 1], es[|es| - 1];
      LoadLatest(p);
      LoadKeys(p);
      assert p + [e] == es;
      forall k | k in Load(es).values ensures Load(es).values[k] == Latest(es, k) {
        FirstIndexSnoc(p, e, k);
      }
    }
  }

  /** The keys of the loaded map are in the order of their first entries. */
  lemma {:induction false} LoadOrder<K, V>(es: seq<(K, V)>)
    ensures forall i, j :: 0 <= i < j < |Load(es).keys| ==>
      FirstIndex(es, Load(es).keys[i]) < FirstIndex(es, Load(es).keys[j])
  {
    if es != [] {
      var p, e := es[..|es| - 1], es[|es| - 1];
      var m0, m := Load(p), Load(es);
      LoadOrder(p);
      LoadKeys(p);
      assert p + [e] == es;
      forall i, j | 0 <= i < j < |m.keys| ensures FirstIndex(es, m.keys[i]) < FirstIndex(es, m.keys[j]) {
        var ki, kj := m.keys[i], m.keys[j];
        assert ki == m0.keys[i] && ki in m0.values;
        FirstIndexSnoc(p, e, ki);
        assert FirstIndex(es, ki) == FirstIndex(p, ki);
        FirstIndexSnoc(p, e, kj);
        if j < |m0.keys| {
          assert kj == m0.keys[j] && kj in m0.values;
          assert FirstIndex(es, kj) == FirstIndex(p, kj);
        } else {
          assert kj == e.0 && e.0 !in m0.values;
          assert FirstIndex(es, kj) == |p|;
        }
      }
    }
  }

  /**
   * After one more `put` on a loaded map, the keys the entries held keep the order of their
   * first entries, and a new key comes last.
   */
  lemma PutOrder<K, V>(es: seq<(K, V)>, k: K, v: V)
    ensures var m := Put(Load(es), k, v);
      && (forall i, j :: 0 <= i < j < |m.keys| && FirstIndex(es, m.keys[j]) < |es| ==>
            FirstIndex(es, m.keys[i]) < FirstIndex(es, m.keys[j]))
      && (FirstIndex(es, k) == |es| ==> m.keys[|m.keys| - 1] == k)
  {
    var m0 := Load(es);
    var m := Put(m0, k, v);
    LoadOrder(es);
    LoadKeys(es);
    forall i, j | 0 <= i < j < |m.keys| && FirstIndex(es, m.keys[j]) < |es|
      ensures FirstIndex(es, m.keys[i]) < FirstIndex(es, m.keys[j])
    {
      assert m.keys[j] in m0.values;
      assert j < |m0.keys| && m.keys[i] == m0.keys[i] && m.keys[j] == m0.keys[j];
    }
  }
}
