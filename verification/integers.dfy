/** 32-bit integers and products, shared by the models. */
module Integers {

  const W32: nat := 0x1_0000_0000

  /** Values of int32_t, and of a long of 32 bits. */
  predicate Fits(x: int) { -0x8000_0000 <= x < 0x8000_0000 }

  /** Two's-complement 32-bit wrap-around. */
  function Wrap(x: int): (r: int)
    ensures Fits(r)
    ensures Fits(x) ==> r == x
  {
    (x + 0x8000_0000) % 0x1_0000_0000 - 0x8000_0000
  }

  lemma MulStep(n: nat, k: nat)
    ensures (n + 1) * k == n * k + k
  {
  }

  lemma MulUp(m: nat, n: nat, k: nat)
    requires m <= n
    ensures m * k <= n * k
  {
  }
}
