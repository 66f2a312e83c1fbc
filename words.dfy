/**
  The kernel's fixed-width unsigned integers (`__u32`, `__u64`) and the
  wrap-around of C's unsigned arithmetic on them, written out explicitly.
 */
module Words {

  const U32_MOD: int := 0x1_0000_0000
  const U64_MOD: int := 0x1_0000_0000_0000_0000

  newtype U32 = x: int | 0 <= x < 0x1_0000_0000
  newtype U64 = x: int | 0 <= x < 0x1_0000_0000_0000_0000

  const U32_MAX: U32 := 0xFFFF_FFFF

  /** `x++` on a `__u32`: the successor, wrapping from the largest value to 0. */
  function Inc32(x: U32): (r: U32)
    ensures r as int == (x as int + 1) % U32_MOD
    ensures x < U32_MAX ==> r as int == x as int + 1
    ensures x == U32_MAX ==> r == 0
  {
    if x == U32_MAX then 0 else x + 1
  }

  /** `a + b` on `__u64`: the sum modulo 2^64. */
  function Add64(a: U64, b: U64): (r: U64)
    ensures r as int == (a as int + b as int) % U64_MOD
    ensures a as int + b as int < U64_MOD ==> r as int == a as int + b as int
  {
    if a as int + b as int < U64_MOD then a + b else (a as int + b as int - U64_MOD) as U64
  }

  /**
    `a - b` on `__u64`: the one value that, added to `b` modulo 2^64, gives `a`.
    It is the plain difference exactly when `b <= a`; otherwise it is huge.
   */
  function Sub64(a: U64, b: U64): (r: U64)
    ensures (b as int + r as int) % U64_MOD == a as int
    ensures b <= a ==> r as int == a as int - b as int
    ensures a < b ==> r as int == U64_MOD - (b as int - a as int)
  {
    if b <= a then a - b else (a as int - b as int + U64_MOD) as U64
  }
}
