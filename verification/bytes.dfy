/** Bytes and the few value types that every other module shares. */
module Bytes {

  type byte = x: int | 0 <= x < 256

  datatype Option<+T> = None | Some(value: T)

  /** Size of the unsigned 64-bit type that holds a pointer or an unsigned long. */
  const TWO_64: int := 0x1_0000_0000_0000_0000

  /** The largest value of a signed 64-bit long. */
  const LONG_MAX: int := 0x7FFF_FFFF_FFFF_FFFF

  /** The value of a long stored in an int. */
  function ToInt32(v: int): (r: int)
    ensures -0x8000_0000 <= r < 0x8000_0000
  {
    (v + 0x8000_0000) % 0x1_0000_0000 - 0x8000_0000
  }

  /** The C expression !x for an integer x. */
  function Not(x: int): int {
    if x == 0 then 1 else 0
  }
}
