/**
 * Machine types of the Go source: bytes (the items are byte strings) and
 * unsigned 64-bit counters, with their wrap-around written out.
 */
module Uint {

  const TWO_64: int := 0x1_0000_0000_0000_0000
  /** math.MaxUint64 */
  const MAX_UINT64: int := TWO_64 - 1

  /** Go's byte: the items are compared and hashed as raw bytes. */
  type Byte = x: int | 0 <= x < 256

  /** Go's uint64. */
  type UInt64 = x: int | 0 <= x < TWO_64

  /** Go's uint64 addition, which wraps modulo 2^64. */
  function Add64(a: UInt64, b: UInt64): (r: UInt64)
    ensures a + b < TWO_64 ==> r == a + b
    ensures a + b >= TWO_64 ==> r == a + b - TWO_64
  {
    (a + b) % TWO_64
  }

  /** Go's uint64 multiplication, which wraps modulo 2^64. */
  function Mul64(a: UInt64, b: UInt64): (r: UInt64)
  {
    (a * b) % TWO_64
  }
}
