/** Time as the model sees it: a `DateTime<Utc>` is an integer count of nanoseconds since
    the Unix epoch, a `chrono::Duration` an integer count of nanoseconds. The chrono calls
    the core relies on are written out here: whole-unit getters that truncate toward zero,
    `from_timestamp` with its range and nanosecond checks, and the
    (seconds, sub-second nanoseconds) split. */
module Time {
  import opened Wrappers

  type Instant = int
  type Span = int

  const NANOS_PER_MICRO: nat := 1_000
  const NANOS_PER_MILLI: nat := 1_000_000
  const NANOS_PER_SEC: nat := 1_000_000_000
  const MICROS_PER_SEC: nat := 1_000_000
  const MILLIS_PER_SEC: nat := 1_000

  /** The seconds of -262144-01-01T00:00:00Z and 262143-12-31T23:59:59Z: the range of
      chrono's NaiveDate (year = i32 >> 13). */
  const MIN_SECS: int := -8_334_632_937_600
  const MAX_SECS: int := 8_210_298_412_799

  /** `DateTime::<Utc>::MIN_UTC` and `MAX_UTC`. */
  const MIN_UTC: Instant := MIN_SECS * NANOS_PER_SEC as int
  const MAX_UTC: Instant := MAX_SECS * NANOS_PER_SEC as int + 999_999_999

  predicate InRange(t: Instant) { MIN_UTC <= t <= MAX_UTC }

  function Abs(x: int): (r: nat)
    ensures r == x || r == -x
  {
    if x < 0 then -x else x
  }

  /** Integer division rounding toward zero (Rust's `/` on signed integers). */
  function TruncDiv(a: int, b: int): (q: int)
    requires b > 0
    ensures Abs(q) * b <= Abs(a) < (Abs(q) + 1) * b
    ensures a >= 0 ==> q >= 0
    ensures a <= 0 ==> q <= 0
  {
    if a >= 0 then a / b else -((-a) / b)
  }

  /** Remainder with the sign of the dividend (Rust's `%` on signed integers). */
  function TruncRem(a: int, b: int): (r: int)
    requires b > 0
    ensures a == b * TruncDiv(a, b) + r
    ensures Abs(r) < b
    ensures a >= 0 ==> r >= 0
    ensures a <= 0 ==> r <= 0
  {
    if a >= 0 then a % b else -((-a) % b)
  }

  /** `Duration::num_milliseconds`: whole milliseconds, truncated toward zero. */
  function NumMilliseconds(d: Span): int { TruncDiv(d, NANOS_PER_MILLI) }

  /** `Duration::num_seconds`: whole seconds, truncated toward zero. */
  function NumSeconds(d: Span): int { TruncDiv(d, NANOS_PER_SEC) }

  function Millis(ms: int): Span { ms * NANOS_PER_MILLI }
  function Seconds(s: int): Span { s * NANOS_PER_SEC }
  function Minutes(m: int): Span { m * 60 * NANOS_PER_SEC }
  function Hours(h: int): Span { h * 3600 * NANOS_PER_SEC }

  /** Whole milliseconds of a whole number of milliseconds are that number. */
  lemma NumMillisecondsOfMillis(ms: int)
    ensures NumMilliseconds(Millis(ms)) == ms
  {
    if ms < 0 {
      assert -Millis(ms) == (-ms) * NANOS_PER_MILLI;
    }
  }

  /** Truncation toward zero commutes with negation, so whole-unit getters are odd. */
  lemma TruncDivNeg(a: int, b: int)
    requires b > 0
    ensures TruncDiv(-a, b) == -TruncDiv(a, b)
  {
  }

  /** `as u32` on a 32-bit signed value: the two's-complement bit pattern. */
  function I32ToU32(i: int): (u: nat)
    ensures u < 0x1_0000_0000
    ensures i >= 0 ==> u == i % 0x1_0000_0000
  {
    i % 0x1_0000_0000
  }

  /** `prost_types::Timestamp`: seconds and an `i32` nanosecond field. */
  datatype ProtoTimestamp = ProtoTimestamp(seconds: int, nanos: int)

  /** `DateTime::from_timestamp(secs, nsecs)`: None outside chrono's date range, or when
      `nsecs` is not below 10^9, except that chrono admits 10^9..2*10^9 in the last second
      of a minute to represent a leap second. */
  function FromTimestamp(secs: int, nsecs: nat): (r: Option<Instant>)
    ensures r.Some? <==> MIN_SECS <= secs <= MAX_SECS &&
                         (nsecs < NANOS_PER_SEC || (nsecs < 2 * NANOS_PER_SEC && secs % 60 == 59))
    ensures r.Some? && nsecs < NANOS_PER_SEC ==>
              r.value == secs * NANOS_PER_SEC + nsecs && InRange(r.value)
  {
    if MIN_SECS <= secs <= MAX_SECS &&
       (nsecs < NANOS_PER_SEC || (nsecs < 2 * NANOS_PER_SEC && secs % 60 == 59))
    then Some(secs * NANOS_PER_SEC + nsecs)
    else None
  }

  /** `DateTime::timestamp`: whole seconds since the epoch, rounded down. */
  function Timestamp(t: Instant): int { t / NANOS_PER_SEC }

  /** `timestamp_subsec_nanos`. */
  function SubsecNanos(t: Instant): (n: nat)
    ensures n < NANOS_PER_SEC
  {
    t % NANOS_PER_SEC
  }

  /** `timestamp_subsec_micros`. */
  function SubsecMicros(t: Instant): (n: nat)
    ensures n < MICROS_PER_SEC
  {
    SubsecNanos(t) / NANOS_PER_MICRO
  }

  /** Splitting an in-range instant into seconds and nanoseconds and rebuilding it is the
      identity. */
  lemma FromTimestampSplit(t: Instant)
    requires InRange(t)
    ensures FromTimestamp(Timestamp(t), SubsecNanos(t)) == Some(t)
  {
    var s := Timestamp(t);
    assert t == s * NANOS_PER_SEC + SubsecNanos(t);
    assert MIN_SECS <= s <= MAX_SECS;
  }
}
