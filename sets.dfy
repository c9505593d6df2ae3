/** Facts about finite sets shared by the hash tables and the graph code. */
module Sets {
  /** A subset is no larger than the set around it. */
  lemma SubsetCard<T>(a: set<T>, b: set<T>)
    requires a <= b
    ensures |a| <= |b|
  {
    assert b == a + (b - a);
  }
}
