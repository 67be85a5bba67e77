/** Facts about sequences that several folds rely on. */
module Seqs {

  /** Concatenation regroups freely; stated once so that proofs over folds
      need not rediscover it element by element. */
  lemma Associative<T>(a: seq<T>, b: seq<T>, c: seq<T>)
    ensures a + b + c == a + (b + c)
  {
  }
}
