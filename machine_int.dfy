/** The fixed-width integer types of the Rust code and the casts between them. */
module MachineInt {

  const I32_MIN: int := -0x8000_0000
  const I32_MAX: int := 0x7FFF_FFFF
  const U32_MAX: int := 0xFFFF_FFFF
  /** 2^64: usize values are below this bound on a 64-bit target. */
  const USIZE_LIMIT: int := 0x1_0000_0000_0000_0000

  type i32 = x: int | I32_MIN <= x <= I32_MAX

  predicate IsI32(x: int) {
    I32_MIN <= x <= I32_MAX
  }

  /** `x as usize` for an i32 x: sign extension, that is, x modulo 2^64. */
  function AsUsize(x: int): (r: nat)
    requires IsI32(x)
    ensures r < USIZE_LIMIT
    ensures x >= 0 ==> r == x
    ensures x < 0 ==> r == USIZE_LIMIT + x
  {
    if x >= 0 then x else USIZE_LIMIT + x
  }

  /** `x as u32`: the low 32 bits. */
  function AsU32(x: int): (r: nat)
    ensures r <= U32_MAX
    ensures 0 <= x <= U32_MAX ==> r == x
    ensures (x - r) % (U32_MAX + 1) == 0
  {
    x % (U32_MAX + 1)
  }

  /** `n as i32` for a usize n: the low 32 bits read as two's complement. */
  function WrapI32(n: nat): (r: i32)
    ensures n <= I32_MAX ==> r == n
    ensures r <= n
    ensures (r - n) % 0x1_0000_0000 == 0
  {
    if n <= I32_MAX then n
    else if n < 0x1_0000_0000 then n - 0x1_0000_0000
    else WrapI32(n - 0x1_0000_0000)
  }
}
