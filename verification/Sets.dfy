/** Small facts about finite sets. */
module Sets {

  lemma FewerLeft<T>(s: set<T>, removed: set<T>)
    requires removed <= s && removed != {}
    ensures |s - removed| < |s|
  {}

  lemma SoleMember<T>(s: set<T>, c: T)
    requires |s| <= 1 && c in s
    ensures s == {c}
  {
    assert s == {c} + (s - {c});
    assert |s| == |{c}| + |s - {c}|;
  }

  lemma SubsetOfSameSize<T>(a: set<T>, b: set<T>)
    requires a <= b && |a| == |b|
    ensures a == b
  {
    assert b == a + (b - a);
    assert |b| == |a| + |b - a|;
  }

  /** The values of some keys, added up. */
  ghost function Sum<K>(counts: map<K, nat>, keys: set<K>): nat
    requires keys <= counts.Keys
  {
    if keys == {} then 0
    else
      var k :| k in keys;
      counts[k] + Sum(counts, keys - {k})
  }
}
