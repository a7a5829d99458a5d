/**
 * JavaScript objects used as dictionaries: their own keys in insertion order
 * and the value stored under each.
 */
module JsObjects {
  import opened Wrappers

  datatype JsMap<K(==, !new), V> = JsMap(keys: seq<K>, vals: map<K, V>)

  /** The key list has no repetition and names exactly the stored keys. */
  predicate Valid<K(==, !new), V>(m: JsMap<K, V>) {
    && (forall i, j :: 0 <= i < j < |m.keys| ==> m.keys[i] != m.keys[j])
    && m.vals.Keys == KeySet(m.keys)
  }

  /** The members of a key list. */
  function KeySet<K(==, !new)>(ks: seq<K>): (r: set<K>)
    ensures forall k :: k in r <==> k in ks
  {
    set i | 0 <= i < |ks| :: ks[i]
  }

  /** The members of a key list grown by one key. */
  lemma KeySetAppend<K(!new)>(ks: seq<K>, k: K)
    ensures KeySet(ks + [k]) == KeySet(ks) + {k}
  {
    assert forall x :: x in ks + [k] <==> x in ks || x == k;
  }

  /** Two valid objects with the same key list that agree on every value are equal. */
  lemma SameObject<K(!new), V>(a: JsMap<K, V>, b: JsMap<K, V>)
    requires Valid(a) && Valid(b) && a.keys == b.keys
    requires forall k :: k in a.vals ==> a.vals[k] == b.vals[k]
    ensures a == b
  {
    assert a.vals.Keys == b.vals.Keys;
    assert a.vals == b.vals;
  }

  function EmptyMap<K(==, !new), V>(): (r: JsMap<K, V>)
    ensures Valid(r) && r.vals == map[]
  {
    JsMap([], map[])
  }

  /** `m[k]`: `undefined` (None) when k is not an own key. */
  function Get<K(==, !new), V>(m: JsMap<K, V>, k: K): (r: Option<V>)
    ensures r.Some? <==> k in m.vals
    ensures r.Some? ==> r.value == m.vals[k]
  {
    if k in m.vals then Some(m.vals[k]) else None
  }

  /** `m[k] = v`: a new key goes to the end of the key order, an existing one keeps its place. */
  function Put<K(==, !new), V>(m: JsMap<K, V>, k: K, v: V): (r: JsMap<K, V>)
    ensures Valid(m) ==> Valid(r)
    ensures r.vals == m.vals[k := v]
    ensures k in m.vals ==> r.keys == m.keys
    ensures k !in m.vals ==> r.keys == m.keys + [k]
  {
    JsMap(if k in m.vals then m.keys else m.keys + [k], m.vals[k := v])
  }

  /** Writes `vals[k]` for each k of `ks` in turn (a k that vals lacks is skipped). */
  function PutKeys<K(==, !new), V>(m: JsMap<K, V>, ks: seq<K>, vals: map<K, V>): JsMap<K, V>
    decreases |ks|
  {
    if ks == [] then m
    else if ks[0] in vals then PutKeys(Put(m, ks[0], vals[ks[0]]), ks[1..], vals)
    else PutKeys(m, ks[1..], vals)
  }

  lemma PutKeysFirst<K(!new), V>(m: JsMap<K, V>, ks: seq<K>, vals: map<K, V>)
    requires ks != [] && ks[0] in vals
    ensures PutKeys(m, ks, vals) == PutKeys(Put(m, ks[0], vals[ks[0]]), ks[1..], vals)
  {
  }

  lemma {:induction false} PutKeysValid<K(!new), V>(m: JsMap<K, V>, ks: seq<K>, vals: map<K, V>)
    requires Valid(m)
    ensures Valid(PutKeys(m, ks, vals))
    decreases |ks|
  {
    if ks != [] {
      if ks[0] in vals {
        PutKeysValid(Put(m, ks[0], vals[ks[0]]), ks[1..], vals);
      } else {
        PutKeysValid(m, ks[1..], vals);
      }
    }
  }

  /** Writing the keys ks: each of them gets its value from vals, every other key keeps its own. */
  lemma {:induction false} PutKeysVals<K(!new), V>(m: JsMap<K, V>, ks: seq<K>, vals: map<K, V>)
    requires forall i :: 0 <= i < |ks| ==> ks[i] in vals
    ensures forall k :: k in PutKeys(m, ks, vals).vals <==> k in m.vals || k in ks
    ensures forall k :: k in ks ==> PutKeys(m, ks, vals).vals[k] == vals[k]
    ensures forall k :: k in m.vals && k !in ks ==> PutKeys(m, ks, vals).vals[k] == m.vals[k]
    decreases |ks|
  {
    if ks != [] {
      PutKeysVals(Put(m, ks[0], vals[ks[0]]), ks[1..], vals);
    }
  }

  /** Copying all own keys of a valid map lays its values over the target's. */
  lemma CopyAll<K(!new), V>(m: JsMap<K, V>, src: JsMap<K, V>)
    requires Valid(src)
    ensures PutKeys(m, src.keys, src.vals).vals == m.vals + src.vals
  {
    var ks, vs := src.keys, src.vals;
    assert forall k :: k in vs <==> k in ks;
    PutKeysVals(m, ks, vs);
    var r, u := PutKeys(m, ks, vs).vals, m.vals + vs;
    assert r.Keys == u.Keys;
    forall k | k in r
      ensures r[k] == u[k]
    {
    }
  }

  lemma UnionAfterUpdate<K, V>(m: map<K, V>, k: K, v: V, x: map<K, V>)
    ensures m[k := v] + x == m + (map[k := v] + x)
  {
  }

  lemma UnionAssoc<K, V>(a: map<K, V>, b: map<K, V>, c: map<K, V>)
    ensures (a + b) + c == a + (b + c)
  {
  }
}
