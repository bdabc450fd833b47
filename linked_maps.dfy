/**
 * A `LinkedHashMap` as the sequence of its entries in insertion order.
 * `Put` of a key that is already there replaces its value in place and keeps
 * its position; a new key is appended at the end.
 */
module LinkedMaps {
  import opened Wrappers

  type Entries<K, V> = seq<(K, V)>

  function Keys<K, V>(m: Entries<K, V>): seq<K>
  {
    seq(|m|, i requires 0 <= i < |m| => m[i].0)
  }

  predicate Distinct<K(==)>(s: seq<K>)
  {
    forall i, j :: 0 <= i < j < |s| ==> s[i] != s[j]
  }

  /** `LinkedHashMap.get`: the value stored under `k`, if any. */
  function Get<K(==), V>(m: Entries<K, V>, k: K): Option<V>
  {
    if m == [] then None
    else if m[0].0 == k then Some(m[0].1)
    else Get(m[1..], k)
  }

  /** `LinkedHashMap.put`: at most one entry more than before. */
  function Put<K(==), V>(m: Entries<K, V>, k: K, v: V): (r: Entries<K, V>)
    ensures |m| <= |r| <= |m| + 1
  {
    if m == [] then [(k, v)]
    else if m[0].0 == k then [(k, v)] + m[1..]
    else [m[0]] + Put(m[1..], k, v)
  }

  /** The key order is unchanged by a `put`, or the new key is appended to it. */
  lemma {:induction false} PutKeys<K, V>(m: Entries<K, V>, k: K, v: V)
    ensures Keys(Put(m, k, v)) == if k in Keys(m) then Keys(m) else Keys(m) + [k]
  {
    if m != [] {
      assert Keys(m) == [m[0].0] + Keys(m[1..]);
      if m[0].0 == k {
        assert Keys([(k, v)] + m[1..]) == Keys(m);
      } else {
        var rest := Put(m[1..], k, v);
        PutKeys(m[1..], k, v);
        assert Keys([m[0]] + rest) == [m[0].0] + Keys(rest);
      }
    }
  }

  /** After `put(k, v)`, `k` maps to `v` and every other key keeps its value. */
  lemma {:induction false} PutGet<K, V>(m: Entries<K, V>, k: K, v: V, key: K)
    ensures Get(Put(m, k, v), key) == if key == k then Some(v) else Get(m, key)
  {
    if m != [] && m[0].0 != k {
      PutGet(m[1..], k, v, key);
      assert Put(m, k, v)[1..] == Put(m[1..], k, v);
    }
  }

  /** A key that is not yet in the map is appended after every existing entry. */
  lemma {:induction false} PutNewKeyAppends<K, V>(m: Entries<K, V>, k: K, v: V)
    requires k !in Keys(m)
    ensures Put(m, k, v) == m + [(k, v)]
  {
    if m != [] {
      assert m[0].0 == Keys(m)[0];
      assert Keys(m[1..]) == Keys(m)[1..];
      PutNewKeyAppends(m[1..], k, v);
      assert m == [m[0]] + m[1..];
    }
  }

  /** A map whose keys are distinct keeps them distinct after a `put`. */
  lemma PutKeepsKeysDistinct<K, V>(m: Entries<K, V>, k: K, v: V)
    requires Distinct(Keys(m))
    ensures Distinct(Keys(Put(m, k, v)))
  {
    PutKeys(m, k, v);
    if k !in Keys(m) {
      var ks := Keys(m) + [k];
      forall i, j | 0 <= i < j < |ks| ensures ks[i] != ks[j] {
        if j == |ks| - 1 {
          assert ks[i] == Keys(m)[i];
        }
      }
    }
  }
}
