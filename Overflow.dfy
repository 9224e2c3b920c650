/** The neighbour coordinate as the engine computes it in `u32` arithmetic.
    `row + delta_row` is a `u32` addition: once the height is at least 2^31 + 1
    the sum can reach 2^32 and wrap (or panic in a debug build) before the `% height`
    is taken, and the "row above" is then not the row above. The rest of the
    model uses `Grid.Wrap`, the sum taken without overflow. */
module Overflow {
  import opened Grid

  /** `(x + delta) % n` with the addition wrapping modulo 2^32 first. */
  function WrapU32(x: uint32, delta: uint32, n: uint32): (y: uint32)
    requires x < n
    ensures y < n
    ensures x + delta < U32_MODULUS ==> y == Wrap(x, delta, n)
  {
    ((x + delta) % U32_MODULUS) % n
  }

  /** While a dimension is at most 2^31, no visited offset makes the sum wrap,
      and the engine's coordinate is the torus coordinate. */
  lemma WrapU32AgreesUpToHalf(x: uint32, delta: uint32, n: uint32)
    requires x < n && delta < n && n <= 0x8000_0000
    ensures WrapU32(x, delta, n) == Wrap(x, delta, n)
  {
    DivModUnique(x + delta, U32_MODULUS, 0, x + delta);
  }

  /** 2^31 + 1 is the smallest dimension where the sum wraps: on the last row,
      2^31, the offset 2^31 takes the sum to exactly 2^32, so the engine's row
      above is 0 instead of 2^31 - 1. */
  lemma WrapU32Threshold()
    ensures WrapU32(0x8000_0000, 0x8000_0000, 0x8000_0001) == 0
    ensures Wrap(0x8000_0000, 0x8000_0000, 0x8000_0001) == 0x7FFF_FFFF
  {
    DivModUnique(0x1_0000_0000, U32_MODULUS, 1, 0);
    DivModUnique(0x1_0000_0000, 0x8000_0001, 1, 0x7FFF_FFFF);
  }

  /** A 1-by-(2^32 - 1) grid satisfies the size precondition, yet for its row
      2^32 - 2 the engine's row above is 2^32 - 4 instead of 2^32 - 3. */
  lemma WrapU32Counterexample()
    ensures 1 * 0xFFFF_FFFF < U32_MODULUS
    ensures WrapU32(0xFFFF_FFFE, 0xFFFF_FFFE, 0xFFFF_FFFF) == 0xFFFF_FFFC
    ensures Wrap(0xFFFF_FFFE, 0xFFFF_FFFE, 0xFFFF_FFFF) == 0xFFFF_FFFD
    ensures WrapU32(0xFFFF_FFFE, 0xFFFF_FFFE, 0xFFFF_FFFF) != Wrap(0xFFFF_FFFE, 0xFFFF_FFFE, 0xFFFF_FFFF)
  {
    DivModUnique(0x1_FFFF_FFFC, U32_MODULUS, 1, 0xFFFF_FFFC);
    DivModUnique(0xFFFF_FFFC, 0xFFFF_FFFF, 0, 0xFFFF_FFFC);
    WrapBackIsPredecessor(0xFFFF_FFFE, 0xFFFF_FFFF);
  }
}
