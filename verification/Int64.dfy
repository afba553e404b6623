/** Machine integers: 64-bit signed arithmetic with its overflow behaviour written out, and bytes. */
module Int64 {

  const I64_MIN: int := -0x8000_0000_0000_0000
  const I64_MAX: int := 0x7fff_ffff_ffff_ffff

  type I64 = x: int | I64_MIN <= x <= I64_MAX

  type byte = x: int | 0 <= x < 256

  /** Addition that stops at the ends of the range. */
  function SaturatingAdd(x: I64, y: I64): (r: I64) {
    if x + y > I64_MAX then I64_MAX
    else if x + y < I64_MIN then I64_MIN
    else x + y
  }

  /** Subtraction on 64-bit words: the exact difference, wrapped into the range. */
  function WrappingSub(x: I64, y: I64): (r: I64) {
    if x - y > I64_MAX then x - y - 0x1_0000_0000_0000_0000
    else if x - y < I64_MIN then x - y + 0x1_0000_0000_0000_0000
    else x - y
  }
}
