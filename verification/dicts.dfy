/** Python dictionaries keep their keys in insertion order, and several
    results of the measured system (column order, the "first key that
    contains a label" search) depend on that order. A dictionary is modelled
    as an association list whose keys are kept distinct. */
module Dicts {
  import opened Wrappers

  type Dict<K, V> = seq<(K, V)>

  function Keys<K, V>(d: Dict<K, V>): (ks: seq<K>)
    ensures |ks| == |d|
    ensures forall i :: 0 <= i < |d| ==> ks[i] == d[i].0
  {
    seq(|d|, i requires 0 <= i < |d| => d[i].0)
  }

  predicate Distinct<K(==)>(ks: seq<K>) {
    forall i, j :: 0 <= i < j < |ks| ==> ks[i] != ks[j]
  }

  /** A dictionary as Python builds one: no key twice. */
  predicate Wf<K(==), V>(d: Dict<K, V>) {
    Distinct(Keys(d))
  }

  /** Position of the first occurrence of `k`, or `|ks|` when absent. */
  function Index<K(==)>(ks: seq<K>, k: K): (i: nat)
    ensures i <= |ks|
    ensures i < |ks| ==> ks[i] == k
    ensures forall j :: 0 <= j < i ==> ks[j] != k
  {
    if |ks| == 0 then 0
    else if ks[0] == k then 0
    else 1 + Index(ks[1..], k)
  }

  lemma IndexAppend<K>(ks: seq<K>, y: K, k: K)
    requires k in ks
    ensures Index(ks + [y], k) == Index(ks, k)
  {
    var j := Index(ks, k);
    assert (ks + [y])[j] == k;
    assert forall m :: 0 <= m < j ==> (ks + [y])[m] == ks[m];
  }

  /** `d[k]` when present. */
  function Get<K(==), V>(d: Dict<K, V>, k: K): (r: Option<V>)
    ensures r.None? <==> k !in Keys(d)
    ensures r.Some? ==> exists i :: 0 <= i < |d| && d[i] == (k, r.value)
  {
    var i := Index(Keys(d), k);
    if i < |d| then Some(d[i].1) else None
  }

  /** `d[k] = v`: an existing key keeps its position, a new key goes last. */
  function Put<K(==, !new), V>(d: Dict<K, V>, k: K, v: V): (r: Dict<K, V>)
    ensures k in Keys(d) ==> Keys(r) == Keys(d)
    ensures k !in Keys(d) ==> Keys(r) == Keys(d) + [k]
    ensures Wf(d) ==> Wf(r)
    ensures Get(r, k) == Some(v)
    ensures forall k' :: k' != k ==> Get(r, k') == Get(d, k')
  {
    var i := Index(Keys(d), k);
    if i < |d| then
      var r := d[i := (k, v)];
      assert Keys(r) == Keys(d);
      r
    else
      var r := d + [(k, v)];
      assert Keys(r) == Keys(d) + [k];
      assert forall k' :: k' in Keys(d) ==> Index(Keys(r), k') == Index(Keys(d), k') by {
        forall k' | k' in Keys(d) {
          IndexAppend(Keys(d), k, k');
        }
      }
      r
  }

  /** Python iterates a set in an order it leaves unspecified: `enumerate`
      stands for that order and lists every element exactly once. */
  ghost predicate IsEnumeration<K(!new)>(enumerate: set<K> -> seq<K>) {
    forall s: set<K> :: (forall x :: x in enumerate(s) <==> x in s) && Distinct(enumerate(s))
  }
}
