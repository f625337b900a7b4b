/** Units of time, in nanoseconds. */
module Clock {
  const NANOSECOND: nat := 1
  const MICROSECOND: nat := 1_000
  const MILLISECOND: nat := 1_000_000
  const SECOND: nat := 1_000_000_000
  const MINUTE: nat := 60 * SECOND
  const HOUR: nat := 60 * MINUTE
  const DAY: nat := 24 * HOUR

  const TWO_63: int := 0x8000_0000_0000_0000
  const TWO_64: int := 0x1_0000_0000_0000_0000

  /** A duration is a signed 64-bit count of nanoseconds; sums wrap around. */
  function Int64(n: int): (r: int)
    ensures -TWO_63 <= r < TWO_63 && (r - n) % TWO_64 == 0
    ensures -TWO_63 <= n < TWO_63 ==> r == n
    ensures TWO_63 <= n < TWO_64 ==> r == n - TWO_64
  {
    (n + TWO_63) % TWO_64 - TWO_63
  }
}
