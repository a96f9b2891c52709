/** Sizes of maps after the updates that the tables make. */
module MapFacts {

  /** One entry swapped for another with a new key, or for one with its own key. */
  lemma SwapSize<K, V>(m: map<K, V>, e: K, k: K, v: V)
    requires e in m && (k == e || k !in m)
    ensures |(m - {e})[k := v]| == |m|
  {
    assert (m - {e})[k := v].Keys == m.Keys - {e} + {k};
  }

  lemma PutSize<K, V>(m: map<K, V>, k: K, v: V)
    ensures |m[k := v]| == |m| + if k in m then 0 else 1
  {
    assert m[k := v].Keys == m.Keys + {k};
  }

  lemma SubSize<K, V>(a: map<K, V>, b: map<K, V>)
    requires a.Keys <= b.Keys
    ensures |a| <= |b|
  {
    SubsetSize(a.Keys, b.Keys);
  }

  lemma {:induction false} SubsetSize<T>(a: set<T>, b: set<T>)
    requires a <= b
    ensures |a| <= |b|
  {
    if a != {} {
      var x :| x in a;
      SubsetSize(a - {x}, b - {x});
    }
  }
}
