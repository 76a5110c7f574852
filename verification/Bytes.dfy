/** Machine integers of the firmware, and the two byte orders it meets. */
module Bytes {

  type u8 = x: int | 0 <= x < 0x100
  type u16 = x: int | 0 <= x < 0x1_0000
  type u32 = x: int | 0 <= x < 0x1_0000_0000

  function BigEndian(first: u8, second: u8): u16 {
    first * 0x100 + second
  }

  function LittleEndian(first: u8, second: u8): u16 {
    second * 0x100 + first
  }

  function Min(a: int, b: int): int {
    if a <= b then a else b
  }

  function Max(a: int, b: int): int {
    if a <= b then b else a
  }
}
