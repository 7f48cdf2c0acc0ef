/**
 * A Ruby Hash as used by `build_json`: key/value pairs kept in insertion
 * order (Ruby hashes enumerate, and the JSON generator writes, in that order).
 */
module RubyHash {
  import opened Wrappers

  type Hash<K, V> = seq<(K, V)>

  function Keys<K, V>(h: Hash<K, V>): seq<K>
  {
    if h == [] then [] else [h[0].0] + Keys(h[1..])
  }

  /** What every Ruby Hash satisfies: no key is stored twice. */
  predicate DistinctKeys<K(==), V>(h: Hash<K, V>)
  {
    h != [] ==> h[0].0 !in Keys(h[1..]) && DistinctKeys(h[1..])
  }

  /** `h[k]` on a hash whose default does not apply: the stored value, if any. */
  function Get<K(==), V>(h: Hash<K, V>, k: K): (r: Option<V>)
    ensures r.Some? <==> k in Keys(h)
    ensures r.Some? ==> (k, r.value) in h
  {
    if h == [] then None
    else
      if h[0].0 == k then Some(h[0].1) else Get(h[1..], k)
  }

  /** `h[k] = v`: replaces the value of an existing key in its place, or appends a new key. */
  function Put<K(==,!new), V>(h: Hash<K, V>, k: K, v: V): (r: Hash<K, V>)
    ensures Get(r, k) == Some(v)
    ensures forall j :: j != k ==> Get(r, j) == Get(h, j)
    ensures Keys(r) == if k in Keys(h) then Keys(h) else Keys(h) + [k]
    ensures DistinctKeys(h) ==> DistinctKeys(r)
  {
    if h == [] then [(k, v)]
    else
      if h[0].0 == k then
        var r := [(k, v)] + h[1..];
        assert r[1..] == h[1..];
        r
      else
        var r := [h[0]] + Put(h[1..], k, v);
        assert r[1..] == Put(h[1..], k, v);
        r
  }

  /**
   * `h.merge(other)`: every pair of other is stored in turn, so other's values
   * win; keys new to h are appended in other's order.
   */
  function Merge<K(==,!new), V>(h: Hash<K, V>, other: Hash<K, V>): (r: Hash<K, V>)
    ensures Keys(h) <= Keys(r)
    ensures forall k :: k in Keys(r) <==> k in Keys(h) || k in Keys(other)
    decreases other
  {
    if other == [] then h else Merge(Put(h, other[0].0, other[0].1), other[1..])
  }

  /** After a merge, other's keys hold other's values and every other key keeps h's value. */
  lemma {:induction false} MergeGet<K(!new), V>(h: Hash<K, V>, other: Hash<K, V>, k: K)
    requires DistinctKeys(other)
    ensures Get(Merge(h, other), k) == if k in Keys(other) then Get(other, k) else Get(h, k)
    decreases other
  {
    if other != [] {
      MergeGet(Put(h, other[0].0, other[0].1), other[1..], k);
    }
  }

  /** Merging keys that are all new appends them after h's keys, in other's order. */
  lemma {:induction false} MergeKeys<K(!new), V>(h: Hash<K, V>, other: Hash<K, V>)
    requires DistinctKeys(other)
    requires forall k :: k in Keys(other) ==> k !in Keys(h)
    ensures Keys(Merge(h, other)) == Keys(h) + Keys(other)
    decreases other
  {
    if other != [] {
      var k0, v0, rest := other[0].0, other[0].1, other[1..];
      var h' := Put(h, k0, v0);
      assert Keys(other) == [k0] + Keys(rest);
      assert Keys(h') == Keys(h) + [k0] by {
        assert k0 in Keys(other);
      }
      assert forall k :: k in Keys(rest) ==> k !in Keys(h') by {
        forall k | k in Keys(rest) ensures k !in Keys(h') {
          assert k in Keys(other);
        }
      }
      MergeKeys(h', rest);
      calc {
        Keys(Merge(h, other));
        Keys(Merge(h', rest));
        Keys(h') + Keys(rest);
        (Keys(h) + [k0]) + Keys(rest);
        { AppendAssociative(Keys(h), [k0], Keys(rest)); }
        Keys(h) + ([k0] + Keys(rest));
        Keys(h) + Keys(other);
      }
    }
  }

  lemma AppendAssociative<T>(a: seq<T>, b: seq<T>, c: seq<T>)
    ensures (a + b) + c == a + (b + c)
  {
  }
}
