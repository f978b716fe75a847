/** A limit and a fact shared by the models. */
module Common {
  /** `BitLen() <= 256` is a magnitude below this. */
  const TWO256: int := 0x1_0000000000000000_0000000000000000_0000000000000000_0000000000000000

  lemma SubsetCount<T>(s: set<T>, t: set<T>)
    requires s <= t
    ensures |s| <= |t|
  {
    assert t == s + (t - s);
  }
}
