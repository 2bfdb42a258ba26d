/** Integer facts shared by the layouts. */
module Arithmetic {

  function Min(x: nat, y: nat): nat {
    if x < y then x else y
  }

  lemma MulMonotone(a: int, b: int, c: nat)
    requires a <= b
    ensures a * c <= b * c
  {
    assert (b - a) * c >= 0;
  }
}
