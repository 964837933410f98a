/** Sizes of finite sets. */
module Sets {
  lemma SubsetSize<T>(s: set<T>, t: set<T>)
    requires s <= t
    ensures |s| <= |t|
    ensures s != t ==> |s| < |t|
  {
    var d := t - s;
    assert t == s + d && s !! d;
    if s != t {
      assert d != {};
    }
  }
}
