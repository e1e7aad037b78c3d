/** Facts about finite sets shared by the modules that count distinct
    colours (Images) and distinct tiles (Charsets). */
module Sets {
  /** A subset is never larger than the set that contains it. */
  lemma SubsetCardinality<T>(a: set<T>, b: set<T>)
    requires a <= b
    ensures |a| <= |b|
  {
    assert b == a + (b - a);
  }
}
