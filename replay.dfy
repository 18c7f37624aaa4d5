/** Replay steps from screen frames (common/lifelog-core/src/replay.rs). Frame times are
    points; after sorting and removing repeats, each consecutive pair `[t_i, t_{i+1})` is a
    step, and the last frame extends to the window end when it lies before it. */
module Replay {
  import opened Time
  import opened Sorting

  datatype ReplayStep = ReplayStep(start: Instant, end: Instant)

  function InstantLe(a: Instant, b: Instant): bool { a <= b }

  lemma InstantLeTotalPreorder()
    ensures TotalPreorder(InstantLe)
  {
  }

  predicate Increasing(ts: seq<Instant>) {
    forall i, j :: 0 <= i < j < |ts| ==> ts[i] < ts[j]
  }

  /** `sort` followed by `dedup`. */
  function Normalize(ts: seq<Instant>): seq<Instant> {
    Dedup(Sort(ts, InstantLe))
  }

  /** The steps `windows(2)` yields over `ts`, keeping the pairs whose start is before
      their end. */
  function PairSteps(ts: seq<Instant>): (r: seq<ReplayStep>)
    decreases |ts|
  {
    if |ts| < 2 then []
    else
      PairSteps(ts[..|ts| - 1]) +
      (if ts[|ts| - 2] < ts[|ts| - 1] then [ReplayStep(ts[|ts| - 2], ts[|ts| - 1])] else [])
  }

  /** The steps built from normalised frame times `ts`. */
  function StepsOf(ts: seq<Instant>, windowEnd: Instant): seq<ReplayStep> {
    if |ts| == 0 then []
    else if |ts| == 1 then (if ts[0] >= windowEnd then [] else [ReplayStep(ts[0], windowEnd)])
    else
      PairSteps(ts) +
      (if ts[|ts| - 1] > ts[|ts| - 2] && ts[|ts| - 1] < windowEnd
       then [ReplayStep(ts[|ts| - 1], windowEnd)] else [])
  }

  /** What `build_replay_steps` returns. */
  function ReplaySteps(frameTimes: seq<Instant>, windowEnd: Instant): seq<ReplayStep> {
    StepsOf(Normalize(frameTimes), windowEnd)
  }

  /** `build_replay_steps`: sort and de-duplicate the frame times, then build the steps. */
  method BuildReplaySteps(frameTimes: seq<Instant>, windowEnd: Instant) returns (steps: seq<ReplayStep>)
    ensures steps == ReplaySteps(frameTimes, windowEnd)
  {
    var ts := Normalize(frameTimes);
    steps := StepsFromTimes(ts, windowEnd);
  }

  /** The `match` on the number of normalised times and the `windows(2)` loop. */
  method StepsFromTimes(ts: seq<Instant>, windowEnd: Instant) returns (steps: seq<ReplayStep>)
    ensures steps == StepsOf(ts, windowEnd)
  {
    if |ts| == 0 {
      return [];
    }
    if |ts| == 1 {
      if ts[0] >= windowEnd {
        return [];
      }
      return [ReplayStep(ts[0], windowEnd)];
    }
    steps := [];
    var i := 1;
    while i < |ts|
      invariant 1 <= i <= |ts|
      invariant steps == PairSteps(ts[..i])
    {
      assert ts[..i + 1][..i] == ts[..i];
      var start := ts[i - 1];
      var end := ts[i];
      if start < end {
        steps := steps + [ReplayStep(start, end)];
      }
      i := i + 1;
    }
    assert ts[..|ts|] == ts;
    var last := ts[|ts| - 1];
    var prev := ts[|ts| - 2];
    if last > prev && last < windowEnd {
      steps := steps + [ReplayStep(last, windowEnd)];
    }
  }

  lemma {:induction false} DedupSortedIncreasing(s: seq<Instant>)
    requires SortedBy(s, InstantLe)
    ensures Increasing(Dedup(s))
    decreases |s|
  {
    if |s| > 1 {
      DedupSortedIncreasing(s[1..]);
      if s[0] != s[1] {
        var d := Dedup(s[1..]);
        forall k | 0 <= k < |d| ensures s[0] < d[k] {
          var m :| 0 <= m < |s[1..]| && s[1..][m] == d[k];
          assert InstantLe(s[0], s[1]) && InstantLe(s[1], s[m + 1]);
        }
      }
    }
  }

  /** Normalised frame times are strictly increasing and are the same set of instants. */
  lemma NormalizeIncreasing(ts: seq<Instant>)
    ensures Increasing(Normalize(ts))
    ensures forall t :: t in Normalize(ts) <==> t in ts
  {
    InstantLeTotalPreorder();
    SortSorted(ts, InstantLe);
    var s := Sort(ts, InstantLe);
    DedupSortedIncreasing(s);
    forall t ensures t in s <==> t in ts {
      assert t in s <==> t in multiset(s);
      assert t in ts <==> t in multiset(ts);
    }
  }

  /** Already sorted distinct times are left as they are. */
  lemma NormalizeOfIncreasing(ts: seq<Instant>)
    requires Increasing(ts)
    ensures Normalize(ts) == ts
  {
    NormalizeIncreasing(ts);
    IncreasingUnique(Normalize(ts), ts);
  }

  lemma HeadIn(s: seq<Instant>)
    ensures s == [] || s[0] in s
  {
  }

  /** Two strictly increasing sequences with the same elements are equal. */
  lemma {:induction false} IncreasingUnique(a: seq<Instant>, b: seq<Instant>)
    requires Increasing(a) && Increasing(b)
    requires forall t :: t in a <==> t in b
    ensures a == b
    decreases |a|
  {
    if a == [] {
      HeadIn(b);
    } else {
      assert a[0] in a;
      assert a[0] in b;
      assert b != [];
      assert b[0] in a;
      HeadIsLeast(a, b[0]);
      HeadIsLeast(b, a[0]);
      forall t ensures t in a[1..] <==> t in b[1..] {
        InTail(a, t);
        InTail(b, t);
      }
      IncreasingUnique(a[1..], b[1..]);
      assert a == [a[0]] + a[1..] && b == [b[0]] + b[1..];
    }
  }

  lemma HeadIsLeast(a: seq<Instant>, x: Instant)
    requires Increasing(a) && x in a
    ensures a[0] <= x
  {
    var j :| 0 <= j < |a| && a[j] == x;
    if j > 0 {
      assert a[0] < a[j];
    }
  }

  lemma InTail(a: seq<Instant>, t: Instant)
    requires Increasing(a) && a != []
    ensures t in a[1..] <==> t in a && t != a[0]
  {
    if t in a[1..] {
      var j :| 0 <= j < |a[1..]| && a[1..][j] == t;
      assert a[j + 1] == t;
    }
    if t in a && t != a[0] {
      var j :| 0 <= j < |a| && a[j] == t;
      assert a[1..][j - 1] == t;
    }
  }

  /** Over strictly increasing times every consecutive pair becomes a step. */
  lemma {:induction false} PairStepsIncreasing(ts: seq<Instant>)
    requires Increasing(ts) && |ts| >= 1
    ensures |PairSteps(ts)| == |ts| - 1
    ensures forall i :: 0 <= i < |ts| - 1 ==> PairSteps(ts)[i] == ReplayStep(ts[i], ts[i + 1])
    decreases |ts|
  {
    if |ts| >= 2 {
      var init := ts[..|ts| - 1];
      assert Increasing(init) by {
        forall i, j | 0 <= i < j < |init| ensures init[i] < init[j] {
          assert init[i] == ts[i] && init[j] == ts[j];
        }
      }
      PairStepsIncreasing(init);
      assert ts[|ts| - 2] < ts[|ts| - 1];
    }
  }

  /** The steps over strictly increasing times `t_0 < … < t_k`: one step `[t_i, t_{i+1})`
      per consecutive pair, followed by `[t_k, window_end)` exactly when `t_k` is before
      the window end. */
  lemma StepsOfShape(ts: seq<Instant>, windowEnd: Instant)
    requires Increasing(ts) && |ts| >= 1
    ensures var r := StepsOf(ts, windowEnd);
      |r| == |ts| - 1 + (if ts[|ts| - 1] < windowEnd then 1 else 0) &&
      (forall i :: 0 <= i < |ts| - 1 ==> r[i] == ReplayStep(ts[i], ts[i + 1])) &&
      (ts[|ts| - 1] < windowEnd ==> r[|ts| - 1] == ReplayStep(ts[|ts| - 1], windowEnd))
  {
    PairStepsIncreasing(ts);
    if |ts| >= 2 {
      assert ts[|ts| - 2] < ts[|ts| - 1];
    }
  }

  /** `build_replay_steps` in terms of the sorted distinct frame times: no frames give no
      steps, and otherwise the steps have the shape `StepsOfShape` states. */
  lemma ReplayStepsShape(frameTimes: seq<Instant>, windowEnd: Instant)
    ensures frameTimes == [] ==> ReplaySteps(frameTimes, windowEnd) == []
    ensures var ts := Normalize(frameTimes); var r := ReplaySteps(frameTimes, windowEnd);
      frameTimes != [] ==>
        |ts| >= 1 &&
        |r| == |ts| - 1 + (if ts[|ts| - 1] < windowEnd then 1 else 0) &&
        (forall i :: 0 <= i < |ts| - 1 ==> r[i] == ReplayStep(ts[i], ts[i + 1])) &&
        (ts[|ts| - 1] < windowEnd ==> r[|ts| - 1] == ReplayStep(ts[|ts| - 1], windowEnd))
  {
    var ts := Normalize(frameTimes);
    NormalizeIncreasing(frameTimes);
    if frameTimes != [] {
      assert frameTimes[0] in ts;
      StepsOfShape(ts, windowEnd);
    }
  }

  /** Over strictly increasing times every step is non-empty, starts at one of the times,
      ends at one of them or at the window end, and ends where the next step begins. */
  lemma {:induction false} StepsOfWellFormed(ts: seq<Instant>, windowEnd: Instant)
    requires Increasing(ts)
    ensures var r := StepsOf(ts, windowEnd);
      (forall i :: 0 <= i < |r| ==> r[i].start < r[i].end) &&
      (forall i :: 0 <= i < |r| ==> r[i].start in ts) &&
      (forall i :: 0 <= i < |r| ==> r[i].end in ts || r[i].end == windowEnd) &&
      (forall i :: 0 <= i < |r| - 1 ==> r[i].end == r[i + 1].start)
  {
    if |ts| >= 1 {
      StepsOfShape(ts, windowEnd);
      var r := StepsOf(ts, windowEnd);
      assert forall i :: 0 <= i < |ts| - 1 ==> ts[i] < ts[i + 1];
      ShapeSteps(ts, windowEnd, r);
      ShapeChained(ts, windowEnd, r);
    }
  }

  /** Steps of the shape `StepsOfShape` states are non-empty and run from one of the times
      to another or to the window end. */
  lemma ShapeSteps(ts: seq<Instant>, windowEnd: Instant, r: seq<ReplayStep>)
    requires |ts| >= 1 && forall i :: 0 <= i < |ts| - 1 ==> ts[i] < ts[i + 1]
    requires |r| == |ts| - 1 + (if ts[|ts| - 1] < windowEnd then 1 else 0)
    requires forall i :: 0 <= i < |ts| - 1 ==> r[i] == ReplayStep(ts[i], ts[i + 1])
    requires ts[|ts| - 1] < windowEnd ==> r[|ts| - 1] == ReplayStep(ts[|ts| - 1], windowEnd)
    ensures forall i :: 0 <= i < |r| ==> r[i].start < r[i].end
    ensures forall i :: 0 <= i < |r| ==> r[i].start in ts
    ensures forall i :: 0 <= i < |r| ==> r[i].end in ts || r[i].end == windowEnd
  {
    forall i | 0 <= i < |r| ensures r[i].start < r[i].end && r[i].start in ts &&
                                    (r[i].end in ts || r[i].end == windowEnd) {
      if i < |ts| - 1 {
        assert ts[i] in ts && ts[i + 1] in ts;
      } else {
        assert ts[|ts| - 1] in ts;
      }
    }
  }

  /** Steps of that shape end where the next begins. */
  lemma ShapeChained(ts: seq<Instant>, windowEnd: Instant, r: seq<ReplayStep>)
    requires |ts| >= 1
    requires |r| == |ts| - 1 + (if ts[|ts| - 1] < windowEnd then 1 else 0)
    requires forall i :: 0 <= i < |ts| - 1 ==> r[i] == ReplayStep(ts[i], ts[i + 1])
    requires ts[|ts| - 1] < windowEnd ==> r[|ts| - 1] == ReplayStep(ts[|ts| - 1], windowEnd)
    ensures forall i :: 0 <= i < |r| - 1 ==> r[i].end == r[i + 1].start
  {
    forall i | 0 <= i < |r| - 1 ensures r[i].end == r[i + 1].start {
      if i < |ts| - 2 {
        assert r[i + 1] == ReplayStep(ts[i + 1], ts[i + 2]);
      }
    }
  }

  /** Every step of `build_replay_steps` is non-empty, starts at a frame time, ends at a
      frame time or the window end, and ends where the next begins. */
  lemma ReplayStepsWellFormed(frameTimes: seq<Instant>, windowEnd: Instant)
    ensures var r := ReplaySteps(frameTimes, windowEnd);
      (forall i :: 0 <= i < |r| ==> r[i].start < r[i].end) &&
      (forall i :: 0 <= i < |r| ==> r[i].start in frameTimes) &&
      (forall i :: 0 <= i < |r| ==> r[i].end in frameTimes || r[i].end == windowEnd) &&
      (forall i :: 0 <= i < |r| - 1 ==> r[i].end == r[i + 1].start)
  {
    NormalizeIncreasing(frameTimes);
    StepsOfWellFormed(Normalize(frameTimes), windowEnd);
  }

  /** The steps depend only on the set of frame times: order and repeats do not matter. */
  lemma ReplayStepsSetDetermined(a: seq<Instant>, b: seq<Instant>, windowEnd: Instant)
    requires forall t :: t in a <==> t in b
    ensures ReplaySteps(a, windowEnd) == ReplaySteps(b, windowEnd)
  {
    NormalizeIncreasing(a);
    NormalizeIncreasing(b);
    IncreasingUnique(Normalize(a), Normalize(b));
  }

  /** The tests' examples: three frames with the window ending at the last give two steps,
      and a single frame extends to the window end. */
  lemma ReplayStepsThreeFrames(ts: seq<Instant>)
    requires |ts| == 3 && ts[0] < ts[1] < ts[2]
    ensures ReplaySteps(ts, ts[2]) == [ReplayStep(ts[0], ts[1]), ReplayStep(ts[1], ts[2])]
  {
    assert Increasing(ts);
    NormalizeOfIncreasing(ts);
    StepsOfShape(ts, ts[2]);
  }

  lemma ReplayStepsOneFrame(t0: Instant, w: Instant)
    requires t0 < w
    ensures ReplaySteps([t0], w) == [ReplayStep(t0, w)]
  {
    NormalizeOfIncreasing([t0]);
  }
}
