/** Clock-skew estimation (common/lifelog-core/src/time_skew.rs): the offset that maps a
    device clock onto the backend clock is the median of the sampled differences, and the
    spread of those differences (their median absolute deviation) grades the estimate. */
module TimeSkew {
  import opened Time
  import opened Sorting
  import Replay

  datatype TimeQuality = Unknown | Good | Degraded

  /** `confidence` is an `f32` in the source; here it is an exact real. */
  datatype SkewEstimate = SkewEstimate(offset: Span, confidence: real, timeQuality: TimeQuality)

  /** `apply`: canonical time = device time + offset. */
  function Apply(est: SkewEstimate, tDevice: Instant): Instant {
    tDevice + est.offset
  }

  /** `median_i64`: the element at index `len / 2` of a sorted, non-empty list. */
  function Median(sorted: seq<int>): (m: int)
    requires sorted != []
    ensures m in sorted
  {
    sorted[|sorted| / 2]
  }

  /** The integers in ascending order (`sort_unstable`: for integers the order is unique). */
  function Ascending(s: seq<int>): (r: seq<int>)
    ensures |r| == |s| && multiset(r) == multiset(s)
    ensures SortedBy(r, Replay.InstantLe)
  {
    Replay.InstantLeTotalPreorder();
    SortSorted(s, Replay.InstantLe);
    Sort(s, Replay.InstantLe)
  }

  /** The offset candidates: `(backend_now - device_now).num_milliseconds()`. */
  function OffsetsMs(samples: seq<(Instant, Instant)>): (r: seq<int>)
    ensures |r| == |samples|
    ensures forall i :: 0 <= i < |samples| ==> r[i] == NumMilliseconds(samples[i].1 - samples[i].0)
  {
    seq(|samples|, i requires 0 <= i < |samples| => NumMilliseconds(samples[i].1 - samples[i].0))
  }

  function AbsDevs(offsets: seq<int>, m: int): (r: seq<int>)
    ensures |r| == |offsets|
    ensures forall i :: 0 <= i < |offsets| ==> r[i] == Abs(offsets[i] - m)
  {
    seq(|offsets|, i requires 0 <= i < |offsets| => Abs(offsets[i] - m))
  }

  function Clamp(x: real, lo: real, hi: real): real
    requires lo <= hi
  {
    if x < lo then lo else if x > hi then hi else x
  }

  /** 0.95 up to a MAD of 50 ms, 0.05 from 5000 ms, linear in between. */
  function Confidence(madMs: int): (c: real)
    ensures 0.05 <= c <= 0.95
  {
    if madMs <= 50 then 0.95
    else if madMs >= 5000 then 0.05
    else Clamp(0.95 - 0.9 * ((madMs as real - 50.0) / (5000.0 - 50.0)), 0.05, 0.95)
  }

  function Quality(confidence: real): TimeQuality {
    if confidence >= 0.85 then Good
    else if confidence >= 0.4 then Degraded
    else Unknown
  }

  /** `estimate_skew`. */
  function EstimateSkew(samples: seq<(Instant, Instant)>): SkewEstimate {
    if samples == [] then SkewEstimate(0, 0.0, Unknown)
    else
      var offsets := Ascending(OffsetsMs(samples));
      var medianMs := Median(offsets);
      var madMs := Median(Ascending(AbsDevs(offsets, medianMs)));
      var c := Confidence(madMs);
      SkewEstimate(Millis(medianMs), c, Quality(c))
  }

  /** No samples: zero offset, zero confidence, quality unknown. */
  lemma EstimateSkewEmpty()
    ensures EstimateSkew([]) == SkewEstimate(0, 0.0, Unknown)
  {
  }

  /** The median splits a sorted list: the `len / 2` elements before it are no larger and
      the ones from it on are no smaller. */
  lemma MedianSplits(sorted: seq<int>)
    requires sorted != [] && SortedBy(sorted, Replay.InstantLe)
    ensures forall i :: 0 <= i < |sorted| / 2 ==> sorted[i] <= Median(sorted)
    ensures forall i :: |sorted| / 2 <= i < |sorted| ==> Median(sorted) <= sorted[i]
  {
    forall i | 0 <= i < |sorted| / 2 ensures sorted[i] <= Median(sorted) {
      assert Replay.InstantLe(sorted[i], sorted[|sorted| / 2]);
    }
    forall i | |sorted| / 2 < i < |sorted| ensures Median(sorted) <= sorted[i] {
      assert Replay.InstantLe(sorted[|sorted| / 2], sorted[i]);
    }
  }

  /** The offset is, in milliseconds, one of the sampled differences, with `len / 2` of
      them (in ascending order) no larger and the rest no smaller; the MAD is the median of
      the distances to it. */
  lemma EstimateSkewMedian(samples: seq<(Instant, Instant)>)
    requires samples != []
    ensures var offsets := Ascending(OffsetsMs(samples));
            var m := Median(offsets);
            EstimateSkew(samples).offset == Millis(m) &&
            m in multiset(OffsetsMs(samples)) &&
            (forall i :: 0 <= i < |offsets| / 2 ==> offsets[i] <= m) &&
            (forall i :: |offsets| / 2 <= i < |offsets| ==> m <= offsets[i]) &&
            EstimateSkew(samples).confidence == Confidence(Median(Ascending(AbsDevs(offsets, m))))
  {
    var offsets := Ascending(OffsetsMs(samples));
    MedianSplits(offsets);
    assert Median(offsets) in multiset(offsets);
  }

  /** The quality bands: Good exactly up to a MAD of 600 ms, Degraded up to 3075 ms, and
      Unknown beyond; in particular a MAD of at most 50 ms is Good and one of 5000 ms or
      more is Unknown. */
  lemma QualityBands(madMs: int)
    ensures madMs <= 50 ==> Confidence(madMs) == 0.95
    ensures madMs >= 5000 ==> Confidence(madMs) == 0.05
    ensures Quality(Confidence(madMs)) == Good <==> madMs <= 600
    ensures Quality(Confidence(madMs)) == Degraded <==> 600 < madMs <= 3075
    ensures Quality(Confidence(madMs)) == Unknown <==> madMs > 3075
  {
    if 50 < madMs < 5000 {
      var t := (madMs as real - 50.0) / 4950.0;
      assert 0.0 < t < 1.0;
      assert Confidence(madMs) == 0.95 - 0.9 * t;
      assert 0.95 - 0.9 * t >= 0.85 <==> madMs <= 600;
      assert 0.95 - 0.9 * t >= 0.4 <==> madMs <= 3075;
    }
  }

  /** Every element of a list whose elements are all `c` sorts to `c`. */
  lemma AscendingConstant(s: seq<int>, c: int)
    requires forall i :: 0 <= i < |s| ==> s[i] == c
    ensures forall i :: 0 <= i < |s| ==> Ascending(s)[i] == c
  {
    var r := Ascending(s);
    forall i | 0 <= i < |r| ensures r[i] == c {
      assert r[i] in multiset(s);
    }
  }

  /** A device clock that is behind by the same whole number of milliseconds in every
      sample gets exactly that offset, full confidence and quality Good; applying it maps
      each device time onto the backend time. */
  lemma {:induction false} ConstantSkew(samples: seq<(Instant, Instant)>, ms: int)
    requires samples != []
    requires forall i :: 0 <= i < |samples| ==> samples[i].1 - samples[i].0 == Millis(ms)
    ensures EstimateSkew(samples) == SkewEstimate(Millis(ms), 0.95, Good)
    ensures forall i :: 0 <= i < |samples| ==> Apply(EstimateSkew(samples), samples[i].0) == samples[i].1
  {
    NumMillisecondsOfMillis(ms);
    var raw := OffsetsMs(samples);
    AscendingConstant(raw, ms);
    var offsets := Ascending(raw);
    var devs := AbsDevs(offsets, ms);
    assert forall i :: 0 <= i < |devs| ==> devs[i] == 0;
    AscendingConstant(devs, 0);
  }

  /** The stable example: a device 5 s behind, sampled three times 10 s apart. */
  lemma StableExample(d0: Instant)
    ensures var b0 := d0 + Seconds(5);
            var samples := [(d0, b0), (d0 + Seconds(10), b0 + Seconds(10)), (d0 + Seconds(20), b0 + Seconds(20))];
            EstimateSkew(samples).offset == Seconds(5) &&
            EstimateSkew(samples).timeQuality == Good &&
            EstimateSkew(samples).confidence > 0.8 &&
            Apply(EstimateSkew(samples), d0) == b0
  {
    var b0 := d0 + Seconds(5);
    var samples := [(d0, b0), (d0 + Seconds(10), b0 + Seconds(10)), (d0 + Seconds(20), b0 + Seconds(20))];
    ConstantSkew(samples, 5000);
  }

  /** The jitter example: differences of 5 s, 6 s and 4 s keep the 5 s median, but the
      1 s spread leaves the estimate below full confidence and not Good. */
  lemma JitterExample(d0: Instant)
    ensures var samples := [(d0, d0 + Seconds(5)),
                            (d0 + Seconds(10), d0 + Seconds(10) + Seconds(6)),
                            (d0 + Seconds(20), d0 + Seconds(20) + Seconds(4))];
            EstimateSkew(samples).offset == Seconds(5) &&
            EstimateSkew(samples).confidence < 0.95 &&
            EstimateSkew(samples).timeQuality != Good
  {
    var samples := [(d0, d0 + Seconds(5)),
                    (d0 + Seconds(10), d0 + Seconds(10) + Seconds(6)),
                    (d0 + Seconds(20), d0 + Seconds(20) + Seconds(4))];
    JitterOffsets(samples, d0);
    JitterMedians();
    assert EstimateSkew(samples) == SkewEstimate(Millis(5000), Confidence(1000), Quality(Confidence(1000)));
    QualityBands(1000);
  }

  lemma JitterOffsets(samples: seq<(Instant, Instant)>, d0: Instant)
    requires samples == [(d0, d0 + Seconds(5)),
                         (d0 + Seconds(10), d0 + Seconds(10) + Seconds(6)),
                         (d0 + Seconds(20), d0 + Seconds(20) + Seconds(4))]
    ensures OffsetsMs(samples) == [5000, 6000, 4000]
  {
    NumMillisecondsOfMillis(5000);
    NumMillisecondsOfMillis(6000);
    NumMillisecondsOfMillis(4000);
  }

  lemma JitterMedians()
    ensures Ascending([5000, 6000, 4000]) == [4000, 5000, 6000]
    ensures Median([4000, 5000, 6000]) == 5000
    ensures Median(Ascending(AbsDevs([4000, 5000, 6000], 5000))) == 1000
  {
    SortedJitter();
    SortedDeviations();
    MedianThree([4000, 5000, 6000]);
    MedianThree([0, 1000, 1000]);
  }

  lemma MedianThree(r: seq<int>)
    requires |r| == 3
    ensures Median(r) == r[1]
  {
  }

  lemma SortedJitter()
    ensures Ascending([5000, 6000, 4000]) == [4000, 5000, 6000]
  {
    assert multiset([5000, 6000, 4000]) == multiset([4000, 5000, 6000]);
    SortedThree([5000, 6000, 4000], [4000, 5000, 6000]);
  }

  lemma SortedDeviations()
    ensures Ascending(AbsDevs([4000, 5000, 6000], 5000)) == [0, 1000, 1000]
  {
    assert AbsDevs([4000, 5000, 6000], 5000) == [1000, 0, 1000];
    assert multiset([1000, 0, 1000]) == multiset([0, 1000, 1000]);
    SortedThree([1000, 0, 1000], [0, 1000, 1000]);
  }

  /** A sorted permutation is the ascending order (used here for three elements). */
  lemma SortedThree(s: seq<int>, r: seq<int>)
    requires |s| == 3 && |r| == 3 && multiset(s) == multiset(r)
    requires r[0] <= r[1] <= r[2]
    ensures Ascending(s) == r
  {
    var a := Ascending(s);
    assert SortedBy(r, Replay.InstantLe);
    SortedUnique(a, r);
  }

  /** Two ascending sequences with the same elements are equal. */
  lemma {:induction false} SortedUnique(a: seq<int>, r: seq<int>)
    requires multiset(a) == multiset(r)
    requires SortedBy(a, Replay.InstantLe) && SortedBy(r, Replay.InstantLe)
    ensures a == r
    decreases |a|
  {
    assert |a| == |multiset(a)| == |multiset(r)| == |r|;
    if a != [] {
      assert a[0] in multiset(r);
      assert r[0] in multiset(a);
      assert a[0] == r[0] by { HeadIsLeast(a, r[0]); HeadIsLeast(r, a[0]); }
      assert a == [a[0]] + a[1..] && r == [r[0]] + r[1..];
      assert multiset(a[1..]) == multiset(r[1..]) by {
        assert multiset(a) == multiset{a[0]} + multiset(a[1..]);
        assert multiset(r) == multiset{r[0]} + multiset(r[1..]);
        assert multiset(a[1..]) == multiset(a) - multiset{a[0]};
        assert multiset(r[1..]) == multiset(r) - multiset{r[0]};
      }
      SortedTail(a);
      SortedTail(r);
      SortedUnique(a[1..], r[1..]);
    }
  }

  lemma HeadIsLeast(a: seq<int>, x: int)
    requires SortedBy(a, Replay.InstantLe) && x in multiset(a)
    ensures a[0] <= x
  {
    var j :| 0 <= j < |a| && a[j] == x;
    assert j == 0 || Replay.InstantLe(a[0], a[j]);
  }

  lemma SortedTail(a: seq<int>)
    requires SortedBy(a, Replay.InstantLe) && a != []
    ensures SortedBy(a[1..], Replay.InstantLe)
  {
    forall i, j | 0 <= i < j < |a| - 1
      ensures Replay.InstantLe(a[1..][i], a[1..][j])
    {
      assert Replay.InstantLe(a[i + 1], a[j + 1]);
    }
  }
}
