/** Machine integers and optional values. Fixed-width integers are subset types: every
    assignment proves that the value fits, and wrapping or saturation is written out. */
module Words {

  const U8_MAX: int := 0xFF
  const U16_MAX: int := 0xFFFF
  const U32_MAX: int := 0xFFFF_FFFF
  const U64_MAX: int := 0xFFFF_FFFF_FFFF_FFFF
  const TWO_64: int := 0x1_0000_0000_0000_0000
  const U128_MAX: int := 0xFFFF_FFFF_FFFF_FFFF_FFFF_FFFF_FFFF_FFFF
  const I128_MIN: int := -0x8000_0000_0000_0000_0000_0000_0000_0000
  const I128_MAX: int := 0x7FFF_FFFF_FFFF_FFFF_FFFF_FFFF_FFFF_FFFF

  type u8 = x: int | 0 <= x <= U8_MAX
  type u16 = x: int | 0 <= x <= U16_MAX
  type u32 = x: int | 0 <= x <= U32_MAX
  type u64 = x: int | 0 <= x <= U64_MAX
  type u128 = x: int | 0 <= x <= U128_MAX

  datatype Option<+T> = None | Some(value: T) {
    function GetOr(default: T): T {
      if Some? then value else default
    }
  }

  function Min(a: int, b: int): int {
    if a <= b then a else b
  }

  /** `u64::saturating_add`. */
  function SatAdd(a: u64, b: u64): u64 {
    if a + b <= U64_MAX then a + b else U64_MAX
  }
}
