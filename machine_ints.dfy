/**
  The machine integers the terminal app computes with, on a 64-bit target, and the
  saturating operations of Rust's standard library that it calls on them.
 */
module MachineInts {

  const U64_MAX: int := 0xFFFF_FFFF_FFFF_FFFF
  const USIZE_MAX: int := U64_MAX
  const ISIZE_MIN: int := -0x8000_0000_0000_0000
  const ISIZE_MAX: int := 0x7FFF_FFFF_FFFF_FFFF

  type u64 = x: int | 0 <= x <= U64_MAX
  type usize = x: int | 0 <= x <= USIZE_MAX
  type isize = x: int | ISIZE_MIN <= x <= ISIZE_MAX

  /** `u64::saturating_add`: the sum, or `u64::MAX` where it would overflow. */
  function SaturatingAddU64(a: u64, b: u64): (r: u64)
    ensures a <= r && b <= r
    ensures r == a + b || r == U64_MAX
    ensures r < U64_MAX ==> r == a + b
    ensures a + b <= U64_MAX ==> r == a + b
  {
    if a + b > U64_MAX then U64_MAX else a + b
  }

  /** `usize::saturating_add`: the sum, or `usize::MAX` where it would overflow. */
  function SaturatingAdd(a: usize, b: usize): (r: usize)
    ensures a <= r && b <= r
    ensures r == a + b || r == USIZE_MAX
    ensures r < USIZE_MAX ==> r == a + b
    ensures a + b <= USIZE_MAX ==> r == a + b
  {
    if a + b > USIZE_MAX then USIZE_MAX else a + b
  }

  /** `usize::saturating_sub`: the difference, or zero where it would underflow. */
  function SaturatingSub(a: usize, b: usize): (r: usize)
    ensures r <= a
    ensures r == a - b || r == 0
    ensures 0 < r ==> r == a - b
    ensures b <= a ==> r == a - b
  {
    if a < b then 0 else a - b
  }

  /** `usize::saturating_add_signed`: the signed sum clamped to `[0, usize::MAX]`. */
  function SaturatingAddSigned(a: usize, b: isize): (r: usize)
    ensures 0 < r < USIZE_MAX ==> r == a + b
    ensures b < 0 ==> r <= a
    ensures 0 <= b ==> a <= r
    ensures r == 0 ==> a + b <= 0
    ensures r == USIZE_MAX ==> a + b >= USIZE_MAX
  {
    if a + b < 0 then 0
    else if a + b > USIZE_MAX then USIZE_MAX
    else a + b
  }
}
