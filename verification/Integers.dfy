// Fixed-width integers: the ranges the program counts in, and its saturating operations.

module Integers {
  const TWO_TO_63: int := 0x8000_0000_0000_0000
  const TWO_TO_64: int := 0x1_0000_0000_0000_0000
  const TWO_TO_128: int := TWO_TO_64 * TWO_TO_64
  const MAX_I64: int := TWO_TO_63 - 1
  const MAX_U64: int := TWO_TO_64 - 1

  type U64 = n: int | 0 <= n < TWO_TO_64
  type I64 = n: int | -TWO_TO_63 <= n < TWO_TO_63
  type U128 = n: int | 0 <= n < TWO_TO_128

  /** The value nearest to `n` in a range. */
  function Clamp(n: int, low: int, high: int): (r: int)
    requires low <= high
    ensures low <= r <= high
    ensures low <= n <= high ==> r == n
    ensures n < low ==> r == low
    ensures n > high ==> r == high
  {
    if n < low then low else if n > high then high else n
  }

  function SaturatingAddU64(a: U64, b: U64): U64 { Clamp(a + b, 0, MAX_U64) }

  /** `saturating_add_signed` */
  function SaturatingAddSigned(a: U64, d: I64): U64 { Clamp(a + d, 0, MAX_U64) }

  function SaturatingAddU128(a: U128, b: U128): U128 { Clamp(a + b, 0, TWO_TO_128 - 1) }

  function SaturatingAddI64(a: I64, b: I64): I64 { Clamp(a + b, -TWO_TO_63, MAX_I64) }

  function SaturatingMulI64(a: I64, b: I64): I64 { Clamp(a * b, -TWO_TO_63, MAX_I64) }

  /** `i64::try_from(n).unwrap_or(i64::MAX)` of an unsigned number. */
  function ToI64(n: nat): I64 { Clamp(n, 0, MAX_I64) }
}
