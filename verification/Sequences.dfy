/** Facts about sequences that the proofs name instead of leaving them to the solver. */
module Sequences {
  lemma ConcatAssociative<T>(a: seq<T>, b: seq<T>, c: seq<T>)
    ensures a + (b + c) == (a + b) + c
  {
  }

  lemma ConcatNothing<T>(s: seq<T>)
    ensures [] + s == s && s + [] == s
  {
  }
}
