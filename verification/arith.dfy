/** Multiplication facts the solver does not find on its own. */
module Arith {

  lemma MulMonotone(a: int, b: int, c: nat)
    requires a <= b
    ensures a * c <= b * c
  {
  }

  lemma MulStrictMonotone(a: int, b: int, c: nat)
    requires a < b && c >= 1
    ensures a * c < b * c
  {
  }

  lemma MulAssociative(a: int, b: int, c: int)
    ensures a * (b * c) == a * b * c
  {
  }
}
