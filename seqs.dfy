/** Facts about sequences that the proofs in the other modules share. */
module Seqs {

  /** Concatenation is associative; stated once so that proofs can regroup a
      concatenation in a single step. */
  lemma {:induction false} Assoc<T>(a: seq<T>, b: seq<T>, c: seq<T>)
    ensures (a + b) + c == a + (b + c)
  {
  }
}
