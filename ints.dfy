/** The fixed-width integer types of the C++ source and its wrap-around arithmetic. */
module BoundedInts {

  const TWO_TO_THE_32: int := 0x1_0000_0000
  const TWO_TO_THE_31: int := 0x8000_0000

  type uint8 = x: int | 0 <= x < 0x100
  type uint32 = x: int | 0 <= x < 0x1_0000_0000
  type int32 = x: int | -0x8000_0000 <= x < 0x8000_0000

  const UINT32_MAX: uint32 := 0xFFFF_FFFF

  /** The value of `n` after conversion to `uint32_t` (reduction modulo 2^32). */
  function WrapUint32(n: int): (r: uint32)
    ensures 0 <= n < TWO_TO_THE_32 ==> r == n
    ensures (n - r) % TWO_TO_THE_32 == 0
  {
    n % TWO_TO_THE_32
  }

  /** The value of `n` as a two's-complement `int32_t` (what 32-bit signed addition yields on overflow). */
  function WrapInt32(n: int): (r: int32)
    ensures -TWO_TO_THE_31 <= n < TWO_TO_THE_31 ==> r == n
    ensures (n - r) % TWO_TO_THE_32 == 0
  {
    var u := n % TWO_TO_THE_32;
    if u >= TWO_TO_THE_31 then u - TWO_TO_THE_32 else u
  }
}
