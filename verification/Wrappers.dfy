/** Result and option types, and the byte and word types every module shares. */
module Wrappers {

  datatype Option<+T> = None | Some(value: T)

  datatype Result<+T, +E> = Ok(value: T) | Err(error: E)

  /** How many of the options hold something. */
  function CountSome<T>(xs: seq<Option<T>>): nat {
    if xs == [] then 0 else CountSome(xs[..|xs| - 1]) + if xs[|xs| - 1].Some? then 1 else 0
  }
}

module Words {

  type byte = x: int | 0 <= x < 0x100
  type u16 = x: int | 0 <= x < 0x1_0000
  type u32 = x: int | 0 <= x < 0x1_0000_0000

  type u64 = x: int | 0 <= x < 0x1_0000_0000_0000_0000

  type u128 = x: int | 0 <= x < 0x1_0000_0000_0000_0000_0000_0000_0000_0000

  const TWO32: int := 0x1_0000_0000
  const TWO63: int := 0x8000_0000_0000_0000
  const TWO64: int := 0x1_0000_0000_0000_0000

  function Min(a: int, b: int): int {
    if a <= b then a else b
  }

  function Max(a: int, b: int): int {
    if a <= b then b else a
  }

  /** `u16::from_be_bytes`. */
  function Be16(b0: byte, b1: byte): u16 {
    0x100 * b0 + b1
  }

  /** The low 32 bits of an integer. */
  function Wrap32(n: int): u32 {
    n % TWO32
  }

  /** `u32::wrapping_sub`. */
  function WrapSub(a: u32, b: u32): u32 {
    Wrap32(a - b)
  }

  /** `u32::wrapping_add`. */
  function WrapAdd(a: u32, b: u32): u32 {
    Wrap32(a + b)
  }
}
