/** Monotonicity of multiplication, kept in lemmas of their own so that
    the proofs using them stay linear. */
module Arith {
  lemma MulMonotone(a: int, b: int, c: nat)
    requires a <= b
    ensures a * c <= b * c
  {
  }

  lemma MulOrder(a: int, b: int, c: nat)
    ensures a < b || a * c >= b * c
  {
    if a >= b {
      MulMonotone(b, a, c);
    }
  }
}
