/** Small facts of nonlinear arithmetic that the solver does not find on its
    own, stated once and used by the other modules. */
module Arith {

  lemma ProductNonneg(d: real, t: real)
    requires d >= 0.0 && t >= 0.0
    ensures d * t >= 0.0
  {
  }

  lemma MulMonotone(a: nat, b: nat, c: nat)
    requires a <= b
    ensures a * c <= b * c
  {
  }

  lemma ProductNegative(d: real, t: real)
    requires d < 0.0 && t > 0.0
    ensures d * t < 0.0
  {
  }
}
