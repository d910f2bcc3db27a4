/**
  A JavaScript `Map` as a value: its entries, and its keys in the order in
  which they were first inserted (the order `Map.prototype.entries` walks).
*/
module OrderedMap {

  datatype OMap<K(==), V> = OMap(keys: seq<K>, values: map<K, V>)

  /** Keys are listed once each, and exactly the keys that have a value are listed. */
  ghost predicate Valid<K, V>(m: OMap<K, V>)
  {
    && (forall i, j | 0 <= i < j < |m.keys| :: m.keys[i] != m.keys[j])
    && (forall k | k in m.keys :: k in m.values)
    && (forall k | k in m.values :: k in m.keys)
  }

  /** `new Map()`. */
  function Empty<K(==), V>(): OMap<K, V>
  {
    OMap([], map[])
  }

  /**
    `m.set(k, v)`: the value of `k` becomes `v`; a new key is listed last and
    a key already present keeps its position.
  */
  function Put<K(==), V>(m: OMap<K, V>, k: K, v: V): OMap<K, V>
  {
    if k in m.values then OMap(m.keys, m.values[k := v]) else OMap(m.keys + [k], m.values[k := v])
  }

  /** `set` keeps every key listed once and exactly the keys with a value listed. */
  lemma PutValid<K, V>(m: OMap<K, V>, k: K, v: V)
    requires Valid(m)
    ensures Valid(Put(m, k, v))
  {
    if k !in m.values {
      assert k !in m.keys;
    }
  }

  /** The map left by calling `set` once per entry, in order, on a new `Map`. */
  function FromEntries<K(==), V>(es: seq<(K, V)>): OMap<K, V>
  {
    if es == [] then Empty() else Put(FromEntries(es[..|es| - 1]), es[|es| - 1].0, es[|es| - 1].1)
  }

  lemma {:induction false} FromEntriesValid<K, V>(es: seq<(K, V)>)
    ensures Valid(FromEntries(es))
  {
    if es != [] {
      FromEntriesValid(es[..|es| - 1]);
      PutValid(FromEntries(es[..|es| - 1]), es[|es| - 1].0, es[|es| - 1].1);
    }
  }

  /** Setting one more entry is one more `set`. */
  lemma FromEntriesSnoc<K, V>(es: seq<(K, V)>, e: (K, V))
    ensures FromEntries(es + [e]) == Put(FromEntries(es), e.0, e.1)
  {
    assert (es + [e])[..|es|] == es;
  }

  /** The index of the first entry for `k`, or `|es|` when there is none. */
  function FirstIndex<K(==), V>(es: seq<(K, V)>, k: K): (i: nat)
    ensures i <= |es|
    ensures i < |es| ==> es[i].0 == k
    ensures forall j | 0 <= j < i :: es[j].0 != k
  {
    if es == [] then 0 else if es[0].0 == k then 0 else 1 + FirstIndex(es[1..], k)
  }

  /** A key has a value exactly when some entry sets it. */
  lemma {:induction false} FromEntriesHasKey<K, V>(es: seq<(K, V)>, k: K)
    ensures k in FromEntries(es).values <==> exists i | 0 <= i < |es| :: es[i].0 == k
  {
    if es != [] {
      var pre := es[..|es| - 1];
      FromEntriesHasKey(pre, k);
      if k in FromEntries(pre).values {
        var i :| 0 <= i < |pre| && pre[i].0 == k;
        assert es[i].0 == k;
      }
      if exists i | 0 <= i < |es| :: es[i].0 == k {
        var i :| 0 <= i < |es| && es[i].0 == k;
        if i < |pre| { assert pre[i].0 == k; }
      }
    }
  }

  /** Every value of a map built from entries is the value of one of the entries. */
  lemma {:induction false} FromEntriesValueFrom<K, V>(es: seq<(K, V)>, k: K)
    requires k in FromEntries(es).values
    ensures exists i | 0 <= i < |es| :: es[i] == (k, FromEntries(es).values[k])
  {
    var n := |es| - 1;
    if es[n].0 != k {
      var pre := es[..n];
      FromEntriesValueFrom(pre, k);
      var i :| 0 <= i < |pre| && pre[i] == (k, FromEntries(pre).values[k]);
      assert es[i] == pre[i];
    } else {
      assert es[n] == (k, FromEntries(es).values[k]);
    }
  }

  /** Last write wins: a key's value is the one its last entry sets. */
  lemma {:induction false} FromEntriesLastWins<K, V>(es: seq<(K, V)>, i: nat)
    requires i < |es|
    requires forall j | i < j < |es| :: es[j].0 != es[i].0
    ensures es[i].0 in FromEntries(es).values
    ensures FromEntries(es).values[es[i].0] == es[i].1
  {
    if i < |es| - 1 {
      var pre := es[..|es| - 1];
      FromEntriesLastWins(pre, i);
    }
  }

  /** Keys are listed in the order of their first `set`. */
  lemma {:induction false} FromEntriesOrder<K, V>(es: seq<(K, V)>, p: nat, q: nat)
    requires p < q < |FromEntries(es).keys|
    ensures FirstIndex(es, FromEntries(es).keys[p]) < FirstIndex(es, FromEntries(es).keys[q])
    ensures FirstIndex(es, FromEntries(es).keys[q]) < |es|
  {
    var n := |es| - 1;
    var pre := es[..n];
    var m := FromEntries(pre);
    var keys := FromEntries(es).keys;
    assert FromEntries(es) == Put(m, es[n].0, es[n].1);
    if q < |m.keys| {
      assert keys[p] == m.keys[p] && keys[q] == m.keys[q];
      FromEntriesOrder(pre, p, q);
      FirstIndexExtend(es, keys[p]);
      FirstIndexExtend(es, keys[q]);
    } else {
      assert keys[p] == m.keys[p] && keys[q] == es[n].0;
      FirstIndexOfPresent(pre, keys[p]);
      FirstIndexExtend(es, keys[p]);
      FirstIndexNew(es, keys[q]);
    }
  }

  /** Every listed key of a map built from entries has an entry. */
  lemma FirstIndexOfPresent<K, V>(es: seq<(K, V)>, k: K)
    requires k in FromEntries(es).keys
    ensures FirstIndex(es, k) < |es|
  {
    FromEntriesValid(es);
    FromEntriesHasKey(es, k);
  }

  /** The first entry of a key that only the last entry sets is the last entry. */
  lemma FirstIndexNew<K, V>(es: seq<(K, V)>, k: K)
    requires es != [] && es[|es| - 1].0 == k && k !in FromEntries(es[..|es| - 1]).values
    ensures FirstIndex(es, k) == |es| - 1
  {
    var pre := es[..|es| - 1];
    FromEntriesHasKey(pre, k);
    assert es == pre + [es[|es| - 1]];
    FirstIndexSkip(pre, [es[|es| - 1]], k);
  }

  /** Appending an entry does not move the first entry of a key already set. */
  lemma {:induction false} FirstIndexExtend<K, V>(es: seq<(K, V)>, k: K)
    requires es != [] && FirstIndex(es[..|es| - 1], k) < |es| - 1
    ensures FirstIndex(es, k) == FirstIndex(es[..|es| - 1], k)
  {
    var pre := es[..|es| - 1];
    if es[0].0 != k {
      assert pre[0] == es[0];
      assert pre[1..] == es[1..][..|es| - 2];
      FirstIndexExtend(es[1..], k);
    }
  }

  lemma {:induction false} FirstIndexSkip<K, V>(a: seq<(K, V)>, b: seq<(K, V)>, k: K)
    requires forall i | 0 <= i < |a| :: a[i].0 != k
    ensures FirstIndex(a + b, k) == |a| + FirstIndex(b, k)
  {
    if a != [] {
      assert (a + b)[1..] == a[1..] + b;
      FirstIndexSkip(a[1..], b, k);
    } else {
      assert a + b == b;
    }
  }
}
