/** Rust's 64-bit integers as they appear in the profiler and the repetition
    tester: a `u64` clock reading cast to `i64`, and an `i64` count cast back
    to `u64`. Both casts reinterpret the bits, so they are reduction modulo
    2^64 into the target's range. */
module Int64 {
  const I64_MAX: int := 0x7fff_ffff_ffff_ffff
  const TWO_64: int := 0x1_0000_0000_0000_0000

  /** A 64-bit unsigned reading reinterpreted as signed (`as i64`). */
  function AsI64(x: nat): (r: int)
    requires x < TWO_64
    ensures -0x8000_0000_0000_0000 <= r <= I64_MAX
    ensures r % TWO_64 == x
    ensures x <= I64_MAX ==> r == x
  {
    if x <= I64_MAX then x else x - TWO_64
  }

  /** A signed count reinterpreted as unsigned (`as u64`). */
  function AsU64(x: int): (r: nat)
    ensures r < TWO_64
    ensures 0 <= x < TWO_64 ==> r == x
    ensures -0x8000_0000_0000_0000 <= x < 0 ==> r == x + TWO_64
  {
    x % TWO_64
  }
}
