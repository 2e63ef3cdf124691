/** The fixed-width integers of the Rust sources, as ranges of `int`, and their saturating and wrapping operators. */
module MachineInts {

  const U32_MAX: int := 0xFFFF_FFFF
  const U64_MAX: int := 0xFFFF_FFFF_FFFF_FFFF
  const I32_MIN: int := -0x8000_0000
  const I32_MAX: int := 0x7FFF_FFFF

  type uint8 = x: int | 0 <= x < 0x100
  type uint16 = x: int | 0 <= x < 0x1_0000
  type uint32 = x: int | 0 <= x <= U32_MAX
  type uint64 = x: int | 0 <= x <= U64_MAX
  type int32 = x: int | I32_MIN <= x <= I32_MAX
  type int64 = x: int | -0x8000_0000_0000_0000 <= x < 0x8000_0000_0000_0000

  /** `u64::saturating_add`. */
  function SatAdd64(a: uint64, b: uint64): uint64 {
    if a + b > U64_MAX then U64_MAX else a + b
  }

  /** `u32::saturating_add`. */
  function SatAdd32(a: uint32, b: uint32): uint32 {
    if a + b > U32_MAX then U32_MAX else a + b
  }

  /** A result of `i32` arithmetic, saturated. */
  function SaturateI32(x: int): int32 {
    if x > I32_MAX then I32_MAX else if x < I32_MIN then I32_MIN else x
  }

  /** A result of `i32` arithmetic, wrapped in two's complement. */
  function WrapI32(x: int): int32 {
    (x + 0x8000_0000) % 0x1_0000_0000 - 0x8000_0000
  }
}
