/** The 32-bit signed integers of C#'s `int`, and its unchecked `+ 1`. */
module Numerics {
  const MinInt32: int := -0x8000_0000
  const MaxInt32: int := 0x7FFF_FFFF

  type Int32 = x: int | MinInt32 <= x <= MaxInt32

  /** `x + 1` in an unchecked context: two's-complement wrap-around modulo 2^32. */
  function Increment32(x: Int32): (r: Int32)
    ensures x < MaxInt32 ==> r == x + 1 && r > x
    ensures x == MaxInt32 ==> r == MinInt32
  {
    (x + 1 - MinInt32) % 0x1_0000_0000 + MinInt32
  }
}
