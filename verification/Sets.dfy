/** Sizes of sets. */
module Sets {

  lemma LargerSet<T>(s: set<T>, t: set<T>)
    requires s <= t
    ensures |s| <= |t|
  {
    assert t == s + (t - s);
  }
}
