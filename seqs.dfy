/**
 * Sequence identities the proofs use at a single point, so that the equality
 * of two sequences is settled once, outside the larger proofs.
 */
module Seqs {

  lemma ConcatAssoc<T>(p: seq<T>, q: seq<T>, r: seq<T>)
    ensures p + (q + r) == (p + q) + r
  {
  }

  lemma ConsTail<T>(s: seq<T>)
    requires s != []
    ensures [s[0]] + s[1..] == s
  {
  }
}
