/** Python dictionaries as the model sees them: an insertion-ordered sequence
    of key/value items. `Get` is the lookup behind `k in d` and `d[k]`
    (None when `d[k]` would raise KeyError), `Put` is `d[k] = v` (a present
    key keeps its position, a new key goes to the end) and `Update` is
    `d.update(other)`. */
module Dicts {
  import opened Common

  datatype Item<K, V> = Item(key: K, value: V)

  type Dict<K, V> = seq<Item<K, V>>

  /** The keys of `d`, in insertion order. */
  function KeysOf<K(==, !new), V>(d: Dict<K, V>): (ks: seq<K>)
    ensures |ks| == |d|
    ensures forall i :: 0 <= i < |d| ==> ks[i] == d[i].key
  {
    if d == [] then [] else [d[0].key] + KeysOf(d[1..])
  }

  /** The values of `d`, in insertion order. */
  function ValuesOf<K(==, !new), V>(d: Dict<K, V>): (vs: seq<V>)
    ensures |vs| == |d|
    ensures forall i :: 0 <= i < |d| ==> vs[i] == d[i].value
  {
    seq(|d|, i requires 0 <= i < |d| => d[i].value)
  }

  /** What every Python dict satisfies: no key occurs twice. */
  predicate DistinctKeys<K(==, !new), V>(d: Dict<K, V>) {
    forall i, j :: 0 <= i < j < |d| ==> d[i].key != d[j].key
  }

  /** Looking `k` up in `d`: the value stored under the first (in a dict:
      the only) occurrence of `k`, or None when `k in d` is false. */
  function Get<K(==, !new), V>(d: Dict<K, V>, k: K): (r: Option<V>)
    ensures r.Some? <==> k in KeysOf(d)
  {
    if d == [] then None
    else if d[0].key == k then Some(d[0].value)
    else Get(d[1..], k)
  }

  /** In a dict every stored item is what `Get` finds under its key. */
  lemma {:induction false} GetMember<K(!new), V>(d: Dict<K, V>, i: nat)
    requires DistinctKeys(d)
    requires i < |d|
    ensures Get(d, d[i].key) == Some(d[i].value)
  {
    if i > 0 {
      assert d[0].key != d[i].key;
      GetMember(d[1..], i - 1);
    }
  }

  /** `d[k] = v`. */
  function Put<K(==, !new), V>(d: Dict<K, V>, k: K, v: V): (r: Dict<K, V>)
    ensures |r| == if k in KeysOf(d) then |d| else |d| + 1
  {
    if d == [] then [Item(k, v)]
    else if d[0].key == k then [Item(k, v)] + d[1..]
    else [d[0]] + Put(d[1..], k, v)
  }

  /** After `d[k] = v`, `k` holds `v` and every other key keeps its value. */
  lemma {:induction false} PutGet<K(!new), V>(d: Dict<K, V>, k: K, v: V, k': K)
    ensures Get(Put(d, k, v), k') == if k' == k then Some(v) else Get(d, k')
  {
    if d != [] && d[0].key != k {
      var r := Put(d, k, v);
      assert r[0] == d[0] && r[1..] == Put(d[1..], k, v);
      PutGet(d[1..], k, v, k');
    }
  }

  /** `d[k] = v` keeps the keys and their order, and appends a new key. */
  lemma {:induction false} PutKeys<K(!new), V>(d: Dict<K, V>, k: K, v: V)
    ensures KeysOf(Put(d, k, v)) == if k in KeysOf(d) then KeysOf(d) else KeysOf(d) + [k]
  {
    if d != [] {
      assert KeysOf(d) == [d[0].key] + KeysOf(d[1..]);
      var r := Put(d, k, v);
      if d[0].key == k {
        assert r[1..] == d[1..];
        assert KeysOf(r) == [k] + KeysOf(d[1..]);
      } else {
        assert r[0] == d[0] && r[1..] == Put(d[1..], k, v);
        PutKeys(d[1..], k, v);
        assert KeysOf(r) == [d[0].key] + KeysOf(Put(d[1..], k, v));
      }
    }
  }

  /** `d[k] = v` keeps a dict a dict. */
  lemma PutDistinct<K(!new), V>(d: Dict<K, V>, k: K, v: V)
    requires DistinctKeys(d)
    ensures DistinctKeys(Put(d, k, v))
  {
    var r := Put(d, k, v);
    PutKeys(d, k, v);
    forall i, j | 0 <= i < j < |r| ensures r[i].key != r[j].key {
      assert r[i].key == KeysOf(r)[i] && r[j].key == KeysOf(r)[j];
      if j < |d| {
        assert KeysOf(r)[i] == d[i].key && KeysOf(r)[j] == d[j].key;
      } else {
        assert KeysOf(r)[i] == KeysOf(d)[i];
      }
    }
  }

  /** Assigning a key that is absent appends it. */
  lemma {:induction false} PutAbsent<K(!new), V>(d: Dict<K, V>, k: K, v: V)
    requires k !in KeysOf(d)
    ensures Put(d, k, v) == d + [Item(k, v)]
  {
    if d != [] {
      assert KeysOf(d) == [d[0].key] + KeysOf(d[1..]);
      assert d[0].key != k && k !in KeysOf(d[1..]);
      PutAbsent(d[1..], k, v);
      assert d == [d[0]] + d[1..];
      assert Put(d, k, v) == [d[0]] + (d[1..] + [Item(k, v)]);
    }
  }

  /** Re-assigning a key the value it already has changes nothing. */
  lemma {:induction false} PutSame<K(!new), V>(d: Dict<K, V>, i: nat)
    requires DistinctKeys(d)
    requires i < |d|
    ensures Put(d, d[i].key, d[i].value) == d
  {
    if i > 0 {
      assert d[0].key != d[i].key;
      PutSame(d[1..], i - 1);
      assert d == [d[0]] + d[1..];
    }
  }

  /** `d.update(other)`: assign the items of `other` one by one, in order. */
  function Update<K(==, !new), V>(d: Dict<K, V>, other: Dict<K, V>): (r: Dict<K, V>)
    ensures |d| <= |r| <= |d| + |other|
    decreases |other|
  {
    if other == [] then d
    else Update(Put(d, other[0].key, other[0].value), other[1..])
  }

  /** `d.update(other)` keeps a dict a dict. */
  lemma {:induction false} UpdateDistinct<K(!new), V>(d: Dict<K, V>, other: Dict<K, V>)
    requires DistinctKeys(d)
    ensures DistinctKeys(Update(d, other))
    decreases |other|
  {
    if other != [] {
      PutDistinct(d, other[0].key, other[0].value);
      UpdateDistinct(Put(d, other[0].key, other[0].value), other[1..]);
    }
  }

  /** After `d.update(other)` (other a dict) every key of `other` holds its
      value from `other`, and every other key keeps its value from `d`. */
  lemma {:induction false} UpdateGet<K(!new), V>(d: Dict<K, V>, other: Dict<K, V>, k: K)
    requires DistinctKeys(other)
    ensures Get(Update(d, other), k) == if k in KeysOf(other) then Get(other, k) else Get(d, k)
    decreases |other|
  {
    if other != [] {
      var d' := Put(d, other[0].key, other[0].value);
      PutGet(d, other[0].key, other[0].value, k);
      var rest := other[1..];
      assert KeysOf(other) == [other[0].key] + KeysOf(rest);
      assert DistinctKeys(rest);
      UpdateGet(d', rest, k);
      if k == other[0].key {
        assert k !in KeysOf(rest) by {
          forall i | 0 <= i < |rest| ensures rest[i].key != k {
            assert rest[i] == other[i + 1];
          }
        }
      }
    }
  }

  /** When every key of `other` is already in `d`, `d.update(other)` keeps
      the key order of `d`. */
  lemma {:induction false} UpdateKeys<K(!new), V>(d: Dict<K, V>, other: Dict<K, V>)
    requires forall i :: 0 <= i < |other| ==> other[i].key in KeysOf(d)
    ensures KeysOf(Update(d, other)) == KeysOf(d)
    decreases |other|
  {
    if other != [] {
      var d' := Put(d, other[0].key, other[0].value);
      PutKeys(d, other[0].key, other[0].value);
      forall i | 0 <= i < |other| - 1 ensures other[1..][i].key in KeysOf(d') {
        assert other[1..][i] == other[i + 1];
      }
      UpdateKeys(d', other[1..]);
    }
  }

  /** Updating a dict with items it already holds gives it back unchanged. */
  lemma {:induction false} UpdateWithOwnItems<K(!new), V>(d: Dict<K, V>, other: Dict<K, V>)
    requires DistinctKeys(d)
    requires forall i :: 0 <= i < |other| ==> other[i] in d
    ensures Update(d, other) == d
    decreases |other|
  {
    if other != [] {
      var i :| 0 <= i < |d| && d[i] == other[0];
      PutSame(d, i);
      forall j | 0 <= j < |other| - 1 ensures other[1..][j] in d {
        assert other[1..][j] == other[j + 1];
      }
      UpdateWithOwnItems(d, other[1..]);
    }
  }
}
