/** Fixed-width integers and the optional value shared by every module. */
module Primitives {

  type u8 = x: int | 0 <= x < 0x100
  type byte = u8
  type u16 = x: int | 0 <= x < 0x1_0000
  type u32 = x: int | 0 <= x < 0x1_0000_0000

  const U16_MAX: u16 := 0xFFFF

  datatype Option<+T> = None | Some(value: T)

  function Min(a: int, b: int): int {
    if a <= b then a else b
  }

  /** `u16::saturating_sub`. */
  function SaturatingSub(a: u16, b: u16): u16 {
    if a >= b then a - b else 0
  }

  /** `u16::saturating_add`. */
  function SaturatingAdd(a: u16, b: u16): u16 {
    if a + b <= U16_MAX then a + b else U16_MAX
  }
}
