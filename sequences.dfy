/** A fact about sequence concatenation used where the solver would otherwise search for it. */
module Sequences {

  lemma AppendAssoc<T>(a: seq<T>, b: seq<T>, c: seq<T>)
    ensures a + (b + c) == a + b + c
  {
  }
}
