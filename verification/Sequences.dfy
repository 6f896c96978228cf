/** Facts about sequences that the proofs use in several places. */
module Sequences {

  /** Sequence concatenation is associative. */
  lemma AppendAssociative<T>(a: seq<T>, b: seq<T>, c: seq<T>)
    ensures a + (b + c) == (a + b) + c
  {
  }
}
