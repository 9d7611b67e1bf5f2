/** Unsigned 64-bit addresses and sizes, with the wrap-around of C++ unsigned arithmetic written out. */
module Addresses {
  const SPACE: int := 0x1_0000_0000_0000_0000

  type Address = a: int | 0 <= a < SPACE

  /** `a + b` on uint64_t. */
  function Plus(a: Address, b: Address): Address {
    if a + b < SPACE then a + b else a + b - SPACE
  }

  /** `a - b` on uint64_t. */
  function Minus(a: Address, b: Address): Address {
    if a >= b then a - b else a - b + SPACE
  }

  function Min(a: int, b: int): int {
    if a <= b then a else b
  }

  function Max(a: int, b: int): int {
    if a >= b then a else b
  }
}
