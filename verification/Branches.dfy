/** Branched stores: a branch holds the writes made on it and reads through to its parent. */
module Branches {
  import opened Lex
  import opened Outcomes

  type View = map<Bytes, Bytes>

  /** Pending writes; `None` deletes the key. */
  type Writes = map<Bytes, Option<Bytes>>

  function Through(base: View, w: Writes): View {
    map k | k in base.Keys + w.Keys && (k in w ==> w[k].Some?) :: if k in w then w[k].value else base[k]
  }

  /** Reading a branch of a branch is reading one branch with the writes merged. */
  lemma BranchOfBranch(base: View, a: Writes, b: Writes)
    ensures Through(Through(base, a), b) == Through(base, a + b)
  {
  }

  lemma MergeAssociative(a: Writes, b: Writes, c: Writes)
    ensures (a + b) + c == a + (b + c)
  {
  }
}
