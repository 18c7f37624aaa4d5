/** Interval and proximity predicates over instants (common/lifelog-core/src/correlation.rs).
    A `TimeInterval` is half-open: it holds its start and excludes its end. */
module Correlation {
  import opened Wrappers
  import opened Time

  datatype TimeInterval = TimeInterval(start: Instant, end: Instant)

  /** `TimeInterval::new`: only a non-empty interval can be built. */
  function New(start: Instant, end: Instant): (r: Option<TimeInterval>)
    ensures r.Some? <==> start < end
    ensures r.Some? ==> r.value.start == start && r.value.end == end
  {
    if start < end then Some(TimeInterval(start, end)) else None
  }

  function Max(a: int, b: int): int { if a < b then b else a }
  function Min(a: int, b: int): int { if a < b then a else b }

  /** `overlaps`: the later start comes before the earlier end. */
  predicate Overlaps(a: TimeInterval, b: TimeInterval) {
    Max(a.start, b.start) < Min(a.end, b.end)
  }

  /** `contains_point`. */
  predicate ContainsPoint(iv: TimeInterval, t: Instant) {
    iv.start <= t && t < iv.end
  }

  /** Two half-open intervals overlap exactly when some instant lies in both, and that
      instant can be taken to be the later start. */
  lemma OverlapsIffCommonPoint(a: TimeInterval, b: TimeInterval)
    ensures Overlaps(a, b) ==> ContainsPoint(a, Max(a.start, b.start)) && ContainsPoint(b, Max(a.start, b.start))
    ensures (exists t :: ContainsPoint(a, t) && ContainsPoint(b, t)) ==> Overlaps(a, b)
  {
  }

  lemma OverlapsSymmetric(a: TimeInterval, b: TimeInterval)
    ensures Overlaps(a, b) == Overlaps(b, a)
  {
  }

  /** Intervals that only touch (one ends where the other starts) do not overlap. */
  lemma TouchingDoNotOverlap(a: TimeInterval, b: TimeInterval)
    requires a.end == b.start
    ensures !Overlaps(a, b)
  {
  }

  /** `within`: the distance in whole milliseconds (each side truncated toward zero) is at
      most `delta` in whole milliseconds. */
  predicate Within(a: Instant, b: Instant, delta: Span) {
    Abs(NumMilliseconds(a - b)) <= NumMilliseconds(delta)
  }

  lemma WithinSymmetric(a: Instant, b: Instant, delta: Span)
    ensures Within(a, b, delta) == Within(b, a, delta)
  {
    assert b - a == -(a - b);
    TruncDivNeg(a - b, NANOS_PER_MILLI);
  }

  /** Whole milliseconds are what `within` compares: for a whole-millisecond delta, it holds
      iff the true distance is under one millisecond past the delta. */
  lemma WithinMillis(a: Instant, b: Instant, ms: nat)
    ensures Within(a, b, Millis(ms)) <==> Abs(a - b) < (ms + 1) * NANOS_PER_MILLI
  {
    NumMillisecondsOfMillis(ms);
    var q := NumMilliseconds(a - b);
    assert Abs(q) * NANOS_PER_MILLI <= Abs(a - b) < (Abs(q) + 1) * NANOS_PER_MILLI;
    if Abs(q) <= ms {
      assert (Abs(q) + 1) * NANOS_PER_MILLI <= (ms + 1) * NANOS_PER_MILLI;
    } else {
      assert (ms + 1) * NANOS_PER_MILLI <= Abs(q) * NANOS_PER_MILLI;
    }
  }

  /** The test case: 29 seconds apart is within 30 seconds and not within 10. */
  lemma WithinExample(base: Instant)
    ensures Within(base, base + Seconds(29), Seconds(30))
    ensures !Within(base, base + Seconds(29), Seconds(10))
  {
    assert Seconds(30) == Millis(30_000) && Seconds(10) == Millis(10_000);
    WithinMillis(base, base + Seconds(29), 30_000);
    WithinMillis(base, base + Seconds(29), 10_000);
  }

  /** `within_interval`: inside the interval, or at most `delta` before its start, or at or
      after its end by at most `delta`. The comparisons are on full-precision durations. */
  predicate WithinInterval(t: Instant, iv: TimeInterval, delta: Span) {
    ContainsPoint(iv, t) ||
    (t < iv.start && iv.start - t <= delta) ||
    (t >= iv.end && t - iv.end <= delta)
  }

  /** For a non-empty interval and a non-negative delta, `within_interval` is membership in
      the closed interval widened by `delta` on both sides. */
  lemma WithinIntervalWidened(t: Instant, iv: TimeInterval, delta: Span)
    requires iv.start < iv.end && delta >= 0
    ensures WithinInterval(t, iv, delta) <==> iv.start - delta <= t <= iv.end + delta
  {
  }

  /** A negative delta leaves only the interval itself. */
  lemma WithinIntervalNegative(t: Instant, iv: TimeInterval, delta: Span)
    requires delta < 0
    ensures WithinInterval(t, iv, delta) <==> ContainsPoint(iv, t)
  {
  }

  /** The test case: a ten-second interval with a five-second delta. */
  lemma WithinIntervalExample(base: Instant)
    ensures var iv := TimeInterval(base, base + Seconds(10));
      WithinInterval(base - Seconds(5), iv, Seconds(5)) &&
      !WithinInterval(base - Seconds(6), iv, Seconds(5)) &&
      WithinInterval(base + Seconds(15), iv, Seconds(5)) &&
      !WithinInterval(base + Seconds(16), iv, Seconds(5))
  {
    WithinIntervalWidened(base - Seconds(6), TimeInterval(base, base + Seconds(10)), Seconds(5));
  }
}
