/**
 * Sign facts about products of reals, shared by the interpolation proofs of
 * tableSnd and the bounds on the option values.
 */
module RealFacts {

  lemma MulNonNegative(a: real, b: real)
    requires a >= 0.0 && b >= 0.0
    ensures a * b >= 0.0
  {
  }

  lemma MulPositive(a: real, b: real)
    requires a > 0.0 && b > 0.0
    ensures a * b > 0.0
  {
  }
}
