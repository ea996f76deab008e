/**
  An insertion-ordered map, as `java.util.LinkedHashMap` keeps it: a list of
  (key, value) pairs whose keys are distinct. `Put` overwrites the value of a
  key that is already present without moving it, and appends a new key at the end.
 */
module LinkedMaps {
  import opened Wrappers

  type LinkedMap<K, V> = seq<(K, V)>

  /** The keys in iteration order. */
  function Keys<K, V>(m: LinkedMap<K, V>): seq<K> {
    seq(|m|, i requires 0 <= i < |m| => m[i].0)
  }

  predicate HasKey<K(==), V>(m: LinkedMap<K, V>, k: K) {
    exists i :: 0 <= i < |m| && m[i].0 == k
  }

  ghost predicate DistinctKeys<K, V>(m: LinkedMap<K, V>) {
    forall i, j :: 0 <= i < j < |m| ==> m[i].0 != m[j].0
  }

  lemma HasKeyTail<K, V>(m: LinkedMap<K, V>, k: K)
    requires m != []
    ensures HasKey(m, k) <==> m[0].0 == k || HasKey(m[1..], k)
  {
    if HasKey(m, k) && m[0].0 != k {
      var i :| 0 <= i < |m| && m[i].0 == k;
      assert m[1..][i - 1].0 == k;
    }
    if HasKey(m[1..], k) {
      var i :| 0 <= i < |m| - 1 && m[1..][i].0 == k;
      assert m[i + 1].0 == k;
    }
  }

  /** The position of the first entry whose key is `k`. */
  function IndexOf<K(==), V>(m: LinkedMap<K, V>, k: K): (i: nat)
    requires HasKey(m, k)
    ensures i < |m| && m[i].0 == k
    ensures forall j :: 0 <= j < i ==> m[j].0 != k
  {
    if m[0].0 == k then 0
    else
      HasKeyTail(m, k);
      1 + IndexOf(m[1..], k)
  }

  /** The value stored under `k`, if any: the value of its first entry. */
  function Get<K(==), V>(m: LinkedMap<K, V>, k: K): (r: Option<V>)
    ensures r.None? <==> !HasKey(m, k)
    ensures r.Some? ==> r.value == m[IndexOf(m, k)].1
  {
    if m == [] then None
    else
      HasKeyTail(m, k);
      if m[0].0 == k then Some(m[0].1)
      else Get(m[1..], k)
  }

  /** `LinkedHashMap.put`: overwrite the entry of `k` in place, or append a new entry at the end. */
  function Put<K(==), V>(m: LinkedMap<K, V>, k: K, v: V): (r: LinkedMap<K, V>)
    ensures !HasKey(m, k) ==> r == m + [(k, v)]
    ensures HasKey(m, k) ==> r == m[IndexOf(m, k) := (k, v)]
  {
    if m == [] then [(k, v)]
    else if m[0].0 == k then [(k, v)] + m[1..]
    else
      HasKeyTail(m, k);
      [m[0]] + Put(m[1..], k, v)
  }

  /** Put keeps the key order; a new key goes last. */
  lemma PutKeys<K, V>(m: LinkedMap<K, V>, k: K, v: V)
    ensures Keys(Put(m, k, v)) == if HasKey(m, k) then Keys(m) else Keys(m) + [k]
  {
  }

  /** After a put, `k` maps to `v`. */
  lemma PutGet<K, V>(m: LinkedMap<K, V>, k: K, v: V)
    ensures Get(Put(m, k, v), k) == Some(v)
  {
    var r := Put(m, k, v);
    if HasKey(m, k) {
      var i := IndexOf(m, k);
      assert r[i].0 == k;
    } else {
      assert r[|m|].0 == k;
    }
  }

  /** A put leaves the value of every other key alone. */
  lemma PutGetOther<K, V>(m: LinkedMap<K, V>, k: K, v: V, k': K)
    requires k' != k
    ensures Get(Put(m, k, v), k') == Get(m, k')
  {
    var r := Put(m, k, v);
    if HasKey(m, k') {
      var j := IndexOf(m, k');
      assert r[j].0 == k';
      assert IndexOf(r, k') == j;
    }
  }

  /** Put never creates a second entry for a key. */
  lemma PutDistinct<K, V>(m: LinkedMap<K, V>, k: K, v: V)
    requires DistinctKeys(m)
    ensures DistinctKeys(Put(m, k, v))
  {
  }
}
