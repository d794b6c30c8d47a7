/**
 * Natural-number helpers shared by the byte-vector arithmetic, the work split
 * and the termination measure of the exhaustive search.
 */
module NatArith {

  /** The larger of two naturals. */
  function Max(a: nat, b: nat): nat
  {
    if a < b then b else a
  }

  /** b to the power e. */
  function Pow(b: nat, e: nat): (p: nat)
    ensures b > 0 ==> p > 0
  {
    if e == 0 then 1 else b * Pow(b, e - 1)
  }

  /** Multiplying both sides by the same natural keeps an inequality. */
  lemma MulMonotone(a: nat, b: nat, c: nat)
    requires a <= b
    ensures a * c <= b * c
  {
  }
}
