/** The fixed-width Rust integer types the model needs, as ranges of `int`. */
module Ints {
  const U32_MAX: nat := 0xFFFF_FFFF

  /** `u32`. */
  type U32 = n: nat | n <= U32_MAX

  /** `i32`. */
  type I32 = n: int | -0x8000_0000 <= n < 0x8000_0000

  /** `i64`. */
  type I64 = n: int | -0x8000_0000_0000_0000 <= n < 0x8000_0000_0000_0000
}
