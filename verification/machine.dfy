/**
 * Fixed-width unsigned integers of the C program. Dafny's `int` is unbounded,
 * so every wrap-around of the source is written out with these types.
 */
module Machine {

  const U32_LIMIT: int := 0x1_0000_0000
  const U64_LIMIT: int := 0x1_0000_0000_0000_0000

  /** `(uint32_t)-1` */
  const UINT32_MAX: int := U32_LIMIT - 1

  /** `unsigned long` on an LP64 platform */
  const ULONG_MAX: int := U64_LIMIT - 1

  type u32 = x: int | 0 <= x < 0x1_0000_0000
  type u64 = x: int | 0 <= x < 0x1_0000_0000_0000_0000

  /** `++x` on a `uint32_t`: one more, wrapping to 0 at UINT32_MAX. */
  function Inc32(x: u32): (r: u32)
    ensures x < UINT32_MAX ==> r == x + 1
    ensures x == UINT32_MAX ==> r == 0
  {
    (x + 1) % U32_LIMIT
  }

}
