/**
 * Python dictionaries whose iteration order matters to the marking rules, modelled as
 * association lists in insertion order. Assigning to a key that is already present
 * replaces its value in place and keeps its position, as `d[k] = v` does.
 */
module OrderedMap {
  import opened Wrappers

  type Entries<K, V> = seq<(K, V)>

  predicate KeysDistinct<K(==), V>(m: Entries<K, V>) {
    forall i, j :: 0 <= i < j < |m| ==> m[i].0 != m[j].0
  }

  function Keys<K, V>(m: Entries<K, V>): (ks: seq<K>)
    ensures |ks| == |m|
    ensures forall i :: 0 <= i < |m| ==> ks[i] == m[i].0
  {
    seq(|m|, i requires 0 <= i < |m| => m[i].0)
  }

  /** `d.get(k)`: the value of the first entry for `k`. */
  function Get<K(==), V>(m: Entries<K, V>, k: K): (r: Option<V>)
    ensures r.None? <==> k !in Keys(m)
    ensures r.Some? ==> (k, r.value) in m
  {
    if m == [] then None
    else if m[0].0 == k then Some(m[0].1)
    else Get(m[1..], k)
  }

  /** `d[k] = v`. */
  function Put<K(==), V>(m: Entries<K, V>, k: K, v: V): (r: Entries<K, V>)
    ensures k in Keys(m) ==> Keys(r) == Keys(m)
    ensures k !in Keys(m) ==> Keys(r) == Keys(m) + [k]
    ensures KeysDistinct(m) ==> KeysDistinct(r)
    ensures forall i :: 0 <= i < |r| ==> r[i] == (k, v) || r[i] in m
  {
    if m == [] then [(k, v)]
    else if m[0].0 == k then [(k, v)] + m[1..]
    else [m[0]] + Put(m[1..], k, v)
  }

  /** After `d[k] = v`, looking up `k` gives `v` and every other key keeps its value. */
  lemma {:induction false} GetPut<K, V>(m: Entries<K, V>, k: K, v: V, k': K)
    ensures Get(Put(m, k, v), k') == if k' == k then Some(v) else Get(m, k')
  {
    if m != [] && m[0].0 != k {
      GetPut(m[1..], k, v, k');
      assert Put(m, k, v) == [m[0]] + Put(m[1..], k, v);
      assert (Put(m, k, v))[1..] == Put(m[1..], k, v);
    } else if m != [] {
      assert (Put(m, k, v))[1..] == m[1..];
    }
  }
}
