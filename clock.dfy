/** Time as the services see it. Go's `time.Time` in UTC becomes an integer
    count of nanoseconds since the Unix epoch, and `time.Duration` a count of
    nanoseconds. The wall clock is never read here: every operation that
    calls `time.Now()` in the source takes the reading as a parameter. */
module Clock {

  /** A UTC instant, in nanoseconds since 1970-01-01T00:00:00Z. */
  type Instant = int

  /** A `time.Duration`, in nanoseconds. */
  type Duration = int

  const Second: Duration := 1_000_000_000
  const Hour: Duration := 3600 * Second

  /** `time.Time.Unix()`: whole seconds, rounded towards minus infinity
      (Dafny's division by a positive divisor rounds down). */
  function UnixSeconds(t: Instant): int {
    t / Second
  }

  /** `time.Time{}`, January 1 of year 1, 00:00:00 UTC: what a failed
      `StringCmd.Time()` returns. */
  const ZeroTime: Instant := -62_135_596_800 * Second

  /** Instants in the same whole second compare equal under `UnixSeconds`,
      and an instant one second later is strictly later. */
  lemma UnixSecondsMonotonic(a: Instant, b: Instant)
    requires a <= b
    ensures UnixSeconds(a) <= UnixSeconds(b)
    ensures a + Second <= b ==> UnixSeconds(a) < UnixSeconds(b)
  {
  }
}
