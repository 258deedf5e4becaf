/**
 The C integer types the lock works with, as subsets of `int`, and the
 conversions and wrapping arithmetic the C code performs on them. Dafny's
 integers are unbounded, so every wrap-around is written out here.
 */
module Machine {

  const U64_LIMIT: int := 0x1_0000_0000_0000_0000
  const U32_LIMIT: int := 0x1_0000_0000
  const I64_LIMIT: int := 0x8000_0000_0000_0000

  /** `unsigned long long`, the type of the lock word and of tickets. */
  type u64 = x: int | 0 <= x < U64_LIMIT

  /** `DWORD`, the millisecond timeout of the Windows wait. */
  type u32 = x: int | 0 <= x < U32_LIMIT

  /** `int`, the type of `timeout_sec` and `postpone_sec`. */
  type i32 = x: int | -0x8000_0000 <= x < 0x8000_0000

  /** `time_t` on a 64-bit Linux, the type of `timespec.tv_sec`. */
  type i64 = x: int | -I64_LIMIT <= x < I64_LIMIT

  /** `a + b` with `a` unsigned 64-bit and `b` a C `int`: `b` is converted
      to `u64` and the sum wraps modulo 2^64, so a negative `b` that reaches
      below zero comes out near the top of the range. */
  function AddInt(a: u64, b: i32): (r: u64)
    ensures 0 <= a + b < U64_LIMIT ==> r == a + b
    ensures a + b < 0 ==> r == a + b + U64_LIMIT
    ensures U64_LIMIT <= a + b ==> r == a + b - U64_LIMIT
  {
    (a + b) % U64_LIMIT
  }

  /** Unsigned 64-bit subtraction, which wraps when `b > a`. */
  function Sub(a: u64, b: u64): (r: u64)
    ensures b <= a ==> r == a - b && r + b == a
    ensures a < b ==> r == a - b + U64_LIMIT
  {
    (a - b) % U64_LIMIT
  }

  /** Unsigned 64-bit `a * 1000` (seconds to milliseconds), which wraps. */
  function Times1000(a: u64): (r: u64)
    ensures a * 1000 < U64_LIMIT ==> r == a * 1000
    ensures U64_LIMIT <= a * 1000 ==> r < a * 1000
  {
    (a * 1000) % U64_LIMIT
  }

  /** Conversion of a `u64` to the 32-bit `DWORD`: keeps the low 32 bits. */
  function ToDword(a: u64): (r: u32)
    ensures a < U32_LIMIT ==> r == a
    ensures a >= U32_LIMIT ==> r < a
  {
    a % U32_LIMIT
  }

  /** Conversion of a `u64` to the signed `time_t`: values of 2^63 and more
      become negative (two's complement, as the compilers the lock targets
      do it). */
  function ToTimeT(a: u64): (r: i64)
    ensures a < I64_LIMIT ==> r == a
    ensures a >= I64_LIMIT ==> r < 0
  {
    if a < I64_LIMIT then a else a - U64_LIMIT
  }

  /** Conversion of a signed `time_t` to `u64`, wrapping negatives. */
  function FromTimeT(a: i64): (r: u64)
    ensures 0 <= a ==> r == a
    ensures a < 0 ==> r >= I64_LIMIT
  {
    if 0 <= a then a else a + U64_LIMIT
  }
}
