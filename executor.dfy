/** The query executor (server/src/query/executor.rs): the DURING operator's closed time
    windows (widening of source rows, merge, intersection), the target query it builds, and
    the de-duplication of keys across sub-plans and target rows. */
module Executor {
  import opened Wrappers
  import opened Time
  import opened Text
  import opened Sorting
  import opened Uuid
  import opened Origin
  import Correlation

  /** A closed window `[start, end]`; the source's `(DateTime, DateTime)` pair. */
  datatype Interval = Interval(start: Instant, end: Instant)

  predicate In(iv: Interval, t: Instant) {
    iv.start <= t <= iv.end
  }

  /** Some window of `ivs` at index `from` or later contains `t`. */
  predicate CoversFrom(ivs: seq<Interval>, from: nat, t: Instant) {
    exists k :: from <= k < |ivs| && In(ivs[k], t)
  }

  predicate Covers(ivs: seq<Interval>, t: Instant) {
    CoversFrom(ivs, 0, t)
  }

  /** Non-empty windows in increasing order with a strict gap between any two. */
  predicate Gapped(ivs: seq<Interval>) {
    (forall k :: 0 <= k < |ivs| ==> ivs[k].start <= ivs[k].end) &&
    (forall k, l :: 0 <= k < l < |ivs| ==> ivs[k].end < ivs[l].start)
  }

  lemma CoversSnoc(m: seq<Interval>, x: Interval, t: Instant)
    ensures Covers(m + [x], t) <==> Covers(m, t) || In(x, t)
  {
    if Covers(m, t) {
      var k :| 0 <= k < |m| && In(m[k], t);
      assert (m + [x])[k] == m[k];
    }
    if In(x, t) {
      assert (m + [x])[|m|] == x;
    }
    if Covers(m + [x], t) {
      var k :| 0 <= k < |m| + 1 && In((m + [x])[k], t);
      if k < |m| {
        assert (m + [x])[k] == m[k];
      }
    }
  }

  // ---------------------------------------------------------------- merge_intervals

  /** An inverted window `(s, e)` with `e < s` is taken as `(s, s)`. */
  function Normalize(iv: Interval): (r: Interval)
    ensures r.start == iv.start && r.start <= r.end
  {
    if iv.end < iv.start then Interval(iv.start, iv.start) else iv
  }

  /** Some window of `ivs`, once normalised, contains `t`. */
  predicate CoversNorm(ivs: seq<Interval>, t: Instant) {
    exists k :: 0 <= k < |ivs| && In(Normalize(ivs[k]), t)
  }

  lemma CoversNormSnoc(s: seq<Interval>, x: Interval, t: Instant)
    ensures CoversNorm(s + [x], t) <==> CoversNorm(s, t) || In(Normalize(x), t)
  {
    if CoversNorm(s, t) {
      var k :| 0 <= k < |s| && In(Normalize(s[k]), t);
      assert (s + [x])[k] == s[k];
    }
    if In(Normalize(x), t) {
      assert (s + [x])[|s|] == x;
    }
    if CoversNorm(s + [x], t) {
      var k :| 0 <= k < |s| + 1 && In(Normalize((s + [x])[k]), t);
      if k < |s| {
        assert (s + [x])[k] == s[k];
      }
    }
  }

  lemma CoversNormPermutation(a: seq<Interval>, b: seq<Interval>, t: Instant)
    requires multiset(a) == multiset(b)
    ensures CoversNorm(a, t) ==> CoversNorm(b, t)
  {
    if CoversNorm(a, t) {
      var k :| 0 <= k < |a| && In(Normalize(a[k]), t);
      assert a[k] in multiset(a);
      assert a[k] in b;
      var j :| 0 <= j < |b| && b[j] == a[k];
    }
  }

  /** `sort_by_key(|(s, _e)| *s)`: ordered by start only. */
  predicate StartLe(a: Interval, b: Interval) {
    a.start <= b.start
  }

  lemma StartLeTotalPreorder()
    ensures TotalPreorder(StartLe)
  {
  }

  /** One turn of the merge loop: a window starting inside the last merged one extends
      it, any other is pushed. */
  function Fuse(m: seq<Interval>, iv: Interval): (r: seq<Interval>)
    ensures r != [] && |r| <= |m| + 1
  {
    if m == [] then [iv]
    else if iv.start <= Last(m).end then
      m[..|m| - 1] + [Interval(Last(m).start, Correlation.Max(Last(m).end, iv.end))]
    else m + [iv]
  }

  /** The merge loop over the sorted windows `s`: the merged windows, and whether the loop
      has left early because the output reached `maxClauses`. */
  function MergeRun(s: seq<Interval>, maxClauses: nat): (r: (seq<Interval>, bool))
    decreases |s|
  {
    if s == [] then ([], false)
    else
      var prev := MergeRun(s[..|s| - 1], maxClauses);
      if prev.1 then prev
      else
        var m := Fuse(prev.0, Normalize(Last(s)));
        (m, |m| >= maxClauses)
  }

  /** `merge_intervals`: sort by start, normalise, fuse, stop at `maxClauses`. */
  function Merge(intervals: seq<Interval>, maxClauses: nat): seq<Interval> {
    if intervals == [] then [] else MergeRun(Sort(intervals, StartLe), maxClauses).0
  }

  method MergeIntervals(intervals: seq<Interval>, maxClauses: nat) returns (merged: seq<Interval>)
    ensures merged == Merge(intervals, maxClauses)
  {
    if intervals == [] {
      return intervals;
    }
    var sorted := Sort(intervals, StartLe);
    merged := [];
    var i := 0;
    while i < |sorted|
      invariant 0 <= i <= |sorted|
      invariant MergeRun(sorted[..i], maxClauses) == (merged, false)
    {
      MergeRunStep(sorted, i, maxClauses);
      merged := FuseInto(merged, Normalize(sorted[i]));
      i := i + 1;
      if |merged| >= maxClauses {
        MergeRunStays(sorted, i, maxClauses);
        return;
      }
    }
    assert sorted[..i] == sorted;
  }

  /** One turn of the merge loop on the merged windows so far. */
  method FuseInto(merged: seq<Interval>, iv: Interval) returns (m: seq<Interval>)
    ensures m == Fuse(merged, iv)
  {
    if merged == [] {
      return [iv];
    }
    var cur := merged[|merged| - 1];
    if iv.start <= cur.end {
      if iv.end > cur.end {
        m := merged[..|merged| - 1] + [Interval(cur.start, iv.end)];
      } else {
        m := merged;
        assert m == merged[..|merged| - 1] + [Interval(cur.start, cur.end)];
      }
    } else {
      m := merged + [iv];
    }
  }

  lemma MergeRunStep(s: seq<Interval>, i: nat, maxClauses: nat)
    requires i < |s|
    ensures MergeRun(s[..i + 1], maxClauses) ==
              var prev := MergeRun(s[..i], maxClauses);
              if prev.1 then prev
              else (Fuse(prev.0, Normalize(s[i])), |Fuse(prev.0, Normalize(s[i]))| >= maxClauses)
  {
    assert s[..i + 1][..i] == s[..i];
  }

  /** Once the merge loop has left, the remaining windows change nothing. */
  lemma {:induction false} MergeRunStays(s: seq<Interval>, i: nat, maxClauses: nat)
    requires i <= |s| && MergeRun(s[..i], maxClauses).1
    ensures MergeRun(s, maxClauses) == MergeRun(s[..i], maxClauses)
    decreases |s|
  {
    if i < |s| {
      var init := s[..|s| - 1];
      assert init[..i] == s[..i];
      MergeRunStays(init, i, maxClauses);
    } else {
      assert s[..i] == s;
    }
  }

  lemma FuseGapped(m: seq<Interval>, iv: Interval)
    requires Gapped(m) && iv.start <= iv.end
    requires m != [] ==> Last(m).start <= iv.start
    ensures Gapped(Fuse(m, iv)) && Last(Fuse(m, iv)).start <= iv.start
  {
    var r := Fuse(m, iv);
    if m != [] && iv.start <= Last(m).end {
      assert forall k :: 0 <= k < |m| - 1 ==> r[k] == m[k];
    } else if m != [] {
      assert forall k :: 0 <= k < |m| ==> r[k] == m[k];
      assert forall k :: 0 <= k < |m| ==> m[k].end <= Last(m).end;
    }
  }

  /** The merged windows are non-empty, increasing and separated by strict gaps (when the
      input is sorted by start), and the last one starts no later than the last input. */
  lemma {:induction false} MergeRunGapped(s: seq<Interval>, maxClauses: nat)
    requires SortedBy(s, StartLe)
    ensures Gapped(MergeRun(s, maxClauses).0)
    ensures s != [] ==> MergeRun(s, maxClauses).0 != [] &&
                        Last(MergeRun(s, maxClauses).0).start <= Last(s).start
    decreases |s|
  {
    if s != [] {
      var init := s[..|s| - 1];
      assert SortedBy(init, StartLe);
      MergeRunGapped(init, maxClauses);
      var prev := MergeRun(init, maxClauses);
      if init != [] {
        assert StartLe(init[|init| - 1], s[|s| - 1]);
      }
      if !prev.1 {
        FuseGapped(prev.0, Normalize(Last(s)));
      }
    }
  }

  lemma FuseCovers(m: seq<Interval>, iv: Interval, t: Instant)
    requires m != [] ==> Last(m).start <= iv.start
    ensures Covers(Fuse(m, iv), t) <==> Covers(m, t) || In(iv, t)
  {
    if m == [] {
      CoversSnoc([], iv, t);
      assert [] + [iv] == [iv];
    } else if iv.start <= Last(m).end {
      var init := m[..|m| - 1];
      var w := Interval(Last(m).start, Correlation.Max(Last(m).end, iv.end));
      assert m == init + [Last(m)];
      CoversSnoc(init, Last(m), t);
      CoversSnoc(init, w, t);
    } else {
      CoversSnoc(m, iv, t);
    }
  }

  /** Merging loses no point and adds none: every point of the output lies in a
      normalised input window, and, unless the loop left early, every such point is
      covered by the output. */
  lemma {:induction false} MergeRunCovers(s: seq<Interval>, maxClauses: nat, t: Instant)
    requires SortedBy(s, StartLe)
    ensures Covers(MergeRun(s, maxClauses).0, t) ==> CoversNorm(s, t)
    ensures !MergeRun(s, maxClauses).1 ==> (CoversNorm(s, t) ==> Covers(MergeRun(s, maxClauses).0, t))
    decreases |s|
  {
    if s != [] {
      var init := s[..|s| - 1];
      assert s == init + [Last(s)];
      assert SortedBy(init, StartLe);
      MergeRunCovers(init, maxClauses, t);
      MergeRunGapped(init, maxClauses);
      CoversNormSnoc(init, Last(s), t);
      var prev := MergeRun(init, maxClauses);
      if !prev.1 {
        if init != [] {
          assert StartLe(init[|init| - 1], s[|s| - 1]);
        }
        FuseCovers(prev.0, Normalize(Last(s)), t);
      }
    }
  }

  lemma {:induction false} MergeRunSize(s: seq<Interval>, maxClauses: nat)
    ensures MergeRun(s, maxClauses).1 ==> |MergeRun(s, maxClauses).0| >= maxClauses
    ensures !MergeRun(s, maxClauses).1 && s != [] ==> |MergeRun(s, maxClauses).0| < maxClauses
    ensures |MergeRun(s, maxClauses).0| <= maxClauses || |MergeRun(s, maxClauses).0| == 1
    decreases |s|
  {
    if s != [] {
      MergeRunSize(s[..|s| - 1], maxClauses);
    }
  }

  lemma MergeSorted(intervals: seq<Interval>)
    ensures SortedBy(Sort(intervals, StartLe), StartLe)
  {
    StartLeTotalPreorder();
    SortSorted(intervals, StartLe);
  }

  /** Empty in, empty out; and only then. */
  lemma MergeEmptyIff(intervals: seq<Interval>, maxClauses: nat)
    ensures Merge(intervals, maxClauses) == [] <==> intervals == []
  {
    if intervals != [] {
      MergeSorted(intervals);
      MergeRunGapped(Sort(intervals, StartLe), maxClauses);
    }
  }

  /** The output is sorted, each window non-empty, with strict gaps between windows. */
  lemma MergeGapped(intervals: seq<Interval>, maxClauses: nat)
    ensures Gapped(Merge(intervals, maxClauses))
  {
    if intervals != [] {
      MergeSorted(intervals);
      MergeRunGapped(Sort(intervals, StartLe), maxClauses);
    }
  }

  /** Every merged point lies in some input window (an inverted one counting as its start
      point); when the output stayed below `maxClauses`, every such point is merged. */
  lemma MergeCovers(intervals: seq<Interval>, maxClauses: nat, t: Instant)
    ensures Covers(Merge(intervals, maxClauses), t) ==> CoversNorm(intervals, t)
    ensures |Merge(intervals, maxClauses)| < maxClauses ==>
              (CoversNorm(intervals, t) ==> Covers(Merge(intervals, maxClauses), t))
  {
    if intervals != [] {
      var s := Sort(intervals, StartLe);
      MergeSorted(intervals);
      MergeRunCovers(s, maxClauses, t);
      MergeRunSize(s, maxClauses);
      CoversNormPermutation(s, intervals, t);
      CoversNormPermutation(intervals, s, t);
    }
  }

  /** At most `maxClauses` windows, except that a limit of 0 still yields one. */
  lemma MergeBound(intervals: seq<Interval>, maxClauses: nat)
    ensures |Merge(intervals, maxClauses)| <= maxClauses || |Merge(intervals, maxClauses)| == 1
  {
    if intervals != [] {
      MergeRunSize(Sort(intervals, StartLe), maxClauses);
    }
  }

  /** An inverted window becomes the single point at its start. */
  lemma MergeInverted(s: Instant, e: Instant, maxClauses: nat)
    requires e < s
    ensures Merge([Interval(s, e)], maxClauses) == [Interval(s, s)]
  {
    var one := [Interval(s, e)];
    assert one[1..] == [];
    assert Sort(one, StartLe) == Insert(one[0], [], StartLe) == one;
    assert one[..0] == [];
    assert MergeRun(one, maxClauses).0 == Fuse([], Normalize(one[0]));
  }

  /** Touching windows fuse; a window after a gap starts a new one. */
  lemma MergeExample()
    ensures Merge([Interval(0, 5), Interval(5, 8), Interval(10, 20)], 10) ==
            [Interval(0, 8), Interval(10, 20)]
  {
    var s := [Interval(0, 5), Interval(5, 8), Interval(10, 20)];
    assert s[1..][1..][1..] == [];
    assert Sort(s[1..][1..], StartLe) == [s[2]];
    assert Sort(s[1..], StartLe) == [s[1], s[2]];
    assert Sort(s, StartLe) == s;
    assert s[..2][..1][..0] == [];
    assert s[..2][..1] == [Interval(0, 5)];
    assert s[..2] == [Interval(0, 5), Interval(5, 8)];
    assert MergeRun(s[..1], 10) == ([Interval(0, 5)], false);
    assert [Interval(0, 5)][..0] == [];
    assert Fuse([Interval(0, 5)], Interval(5, 8)) == [Interval(0, 8)];
    assert MergeRun(s[..2], 10) == ([Interval(0, 8)], false);
  }

  // ------------------------------------------------------------ intersect_intervals

  /** The two-pointer loop from `a[i]`, `b[j]` with output `out` so far: emit the common
      part of the two current windows when it is non-empty, stop once the output reaches
      `maxClauses`, and advance the side whose window ends first. */
  function IntersectFrom(a: seq<Interval>, b: seq<Interval>, i: nat, j: nat, out: seq<Interval>, maxClauses: nat): seq<Interval>
    requires i <= |a| && j <= |b|
    decreases |a| - i + |b| - j
  {
    if i < |a| && j < |b| then
      var piece := Interval(Correlation.Max(a[i].start, b[j].start), Correlation.Min(a[i].end, b[j].end));
      var out' := if piece.start <= piece.end then out + [piece] else out;
      if piece.start <= piece.end && |out'| >= maxClauses then out'
      else if a[i].end <= b[j].end then IntersectFrom(a, b, i + 1, j, out', maxClauses)
      else IntersectFrom(a, b, i, j + 1, out', maxClauses)
    else out
  }

  /** `intersect_intervals`. */
  function Intersect(a: seq<Interval>, b: seq<Interval>, maxClauses: nat): seq<Interval> {
    IntersectFrom(a, b, 0, 0, [], maxClauses)
  }

  method IntersectIntervals(a: seq<Interval>, b: seq<Interval>, maxClauses: nat) returns (out: seq<Interval>)
    ensures out == Intersect(a, b, maxClauses)
  {
    out := [];
    var i: nat := 0;
    var j: nat := 0;
    while i < |a| && j < |b|
      invariant i <= |a| && j <= |b|
      invariant IntersectFrom(a, b, i, j, out, maxClauses) == Intersect(a, b, maxClauses)
      decreases |a| - i + |b| - j
    {
      var start := Correlation.Max(a[i].start, b[j].start);
      var end := Correlation.Min(a[i].end, b[j].end);
      if start <= end {
        out := out + [Interval(start, end)];
        if |out| >= maxClauses {
          return;
        }
      }
      if a[i].end <= b[j].end {
        i := i + 1;
      } else {
        j := j + 1;
      }
    }
  }

  /** Every output point lies in both inputs. */
  lemma {:induction false} IntersectFromSound(a: seq<Interval>, b: seq<Interval>, i: nat, j: nat, out: seq<Interval>, maxClauses: nat, t: Instant)
    requires i <= |a| && j <= |b|
    requires Covers(out, t) ==> Covers(a, t) && Covers(b, t)
    ensures Covers(IntersectFrom(a, b, i, j, out, maxClauses), t) ==> Covers(a, t) && Covers(b, t)
    decreases |a| - i + |b| - j
  {
    if i < |a| && j < |b| {
      var piece := Interval(Correlation.Max(a[i].start, b[j].start), Correlation.Min(a[i].end, b[j].end));
      var out' := if piece.start <= piece.end then out + [piece] else out;
      if piece.start <= piece.end {
        CoversSnoc(out, piece, t);
        if In(piece, t) {
          assert In(a[i], t) && In(b[j], t);
        }
      }
      if !(piece.start <= piece.end && |out'| >= maxClauses) {
        if a[i].end <= b[j].end {
          IntersectFromSound(a, b, i + 1, j, out', maxClauses, t);
        } else {
          IntersectFromSound(a, b, i, j + 1, out', maxClauses, t);
        }
      }
    }
  }

  /** The next piece, if any, starts after everything emitted so far. */
  predicate Frontier(a: seq<Interval>, b: seq<Interval>, i: nat, j: nat, out: seq<Interval>) {
    out != [] && i < |a| && j < |b| ==> Last(out).end < a[i].start || Last(out).end < b[j].start
  }

  lemma GappedSnoc(out: seq<Interval>, p: Interval)
    requires Gapped(out) && p.start <= p.end
    requires out != [] ==> Last(out).end < p.start
    ensures Gapped(out + [p])
  {
    var r := out + [p];
    forall k, l | 0 <= k < l < |r| ensures r[k].end < r[l].start {
      if l == |out| && k < |out| - 1 {
        assert out[k].end < out[|out| - 1].start;
      }
    }
  }

  /** On windows with strict gaps, the intersection has strict gaps too. */
  lemma {:induction false} IntersectFromGapped(a: seq<Interval>, b: seq<Interval>, i: nat, j: nat, out: seq<Interval>, maxClauses: nat)
    requires i <= |a| && j <= |b|
    requires Gapped(a) && Gapped(b) && Gapped(out) && Frontier(a, b, i, j, out)
    ensures Gapped(IntersectFrom(a, b, i, j, out, maxClauses))
    decreases |a| - i + |b| - j
  {
    if i < |a| && j < |b| {
      var piece := Interval(Correlation.Max(a[i].start, b[j].start), Correlation.Min(a[i].end, b[j].end));
      var out' := if piece.start <= piece.end then out + [piece] else out;
      if piece.start <= piece.end {
        GappedSnoc(out, piece);
      }
      if !(piece.start <= piece.end && |out'| >= maxClauses) {
        if a[i].end <= b[j].end {
          if i + 1 < |a| {
            assert a[i].end < a[i + 1].start;
          }
          IntersectFromGapped(a, b, i + 1, j, out', maxClauses);
        } else {
          if j + 1 < |b| {
            assert b[j].end < b[j + 1].start;
          }
          IntersectFromGapped(a, b, i, j + 1, out', maxClauses);
        }
      }
    }
  }

  /** What the loop still owes at `(i, j)`: a common point not yet emitted lies in the
      remaining windows of both sides. */
  predicate Owed(a: seq<Interval>, b: seq<Interval>, i: nat, j: nat, out: seq<Interval>, t: Instant) {
    Covers(a, t) && Covers(b, t) ==> Covers(out, t) || (CoversFrom(a, i, t) && CoversFrom(b, j, t))
  }

  /** Advancing the side whose window ends first loses no common point. */
  lemma IntersectStep(a: seq<Interval>, b: seq<Interval>, i: nat, j: nat, out: seq<Interval>, t: Instant)
    requires i < |a| && j < |b| && Gapped(a) && Gapped(b)
    requires Owed(a, b, i, j, out, t)
    ensures var piece := Interval(Correlation.Max(a[i].start, b[j].start), Correlation.Min(a[i].end, b[j].end));
            var out' := if piece.start <= piece.end then out + [piece] else out;
            if a[i].end <= b[j].end then Owed(a, b, i + 1, j, out', t) else Owed(a, b, i, j + 1, out', t)
  {
    var piece := Interval(Correlation.Max(a[i].start, b[j].start), Correlation.Min(a[i].end, b[j].end));
    var out' := if piece.start <= piece.end then out + [piece] else out;
    CoversSnoc(out, piece, t);
    if Covers(a, t) && Covers(b, t) && !Covers(out, t) {
      var k :| i <= k < |a| && In(a[k], t);
      var l :| j <= l < |b| && In(b[l], t);
      if a[i].end <= b[j].end {
        if k == i {
          assert b[j].end < b[l].start || l == j;
          assert In(piece, t);
        }
      } else {
        if l == j {
          assert a[i].end < a[k].start || k == i;
          assert In(piece, t);
        }
      }
    }
  }

  lemma {:induction false} IntersectFromComplete(a: seq<Interval>, b: seq<Interval>, i: nat, j: nat, out: seq<Interval>, maxClauses: nat, t: Instant)
    requires i <= |a| && j <= |b| && Gapped(a) && Gapped(b)
    requires Owed(a, b, i, j, out, t)
    ensures |IntersectFrom(a, b, i, j, out, maxClauses)| < maxClauses ==>
              (Covers(a, t) && Covers(b, t) ==> Covers(IntersectFrom(a, b, i, j, out, maxClauses), t))
    decreases |a| - i + |b| - j
  {
    if i < |a| && j < |b| {
      var piece := Interval(Correlation.Max(a[i].start, b[j].start), Correlation.Min(a[i].end, b[j].end));
      var out' := if piece.start <= piece.end then out + [piece] else out;
      IntersectStep(a, b, i, j, out, t);
      if !(piece.start <= piece.end && |out'| >= maxClauses) {
        if a[i].end <= b[j].end {
          IntersectFromComplete(a, b, i + 1, j, out', maxClauses, t);
        } else {
          IntersectFromComplete(a, b, i, j + 1, out', maxClauses, t);
        }
      }
    }
  }

  lemma {:induction false} IntersectFromSize(a: seq<Interval>, b: seq<Interval>, i: nat, j: nat, out: seq<Interval>, maxClauses: nat)
    requires i <= |a| && j <= |b|
    requires |out| < maxClauses || out == []
    ensures |IntersectFrom(a, b, i, j, out, maxClauses)| <= maxClauses ||
            |IntersectFrom(a, b, i, j, out, maxClauses)| == 1
    decreases |a| - i + |b| - j
  {
    if i < |a| && j < |b| {
      var piece := Interval(Correlation.Max(a[i].start, b[j].start), Correlation.Min(a[i].end, b[j].end));
      var out' := if piece.start <= piece.end then out + [piece] else out;
      if !(piece.start <= piece.end && |out'| >= maxClauses) {
        if a[i].end <= b[j].end {
          IntersectFromSize(a, b, i + 1, j, out', maxClauses);
        } else {
          IntersectFromSize(a, b, i, j + 1, out', maxClauses);
        }
      }
    }
  }

  /** Every point of the intersection lies in a window of `a` and in a window of `b`. */
  lemma IntersectSound(a: seq<Interval>, b: seq<Interval>, maxClauses: nat, t: Instant)
    ensures Covers(Intersect(a, b, maxClauses), t) ==> Covers(a, t) && Covers(b, t)
  {
    IntersectFromSound(a, b, 0, 0, [], maxClauses, t);
  }

  /** On inputs with strict gaps (as `merge_intervals` produces), the output has strict
      gaps, and, unless it reached `maxClauses`, it covers every common point. */
  lemma IntersectGappedComplete(a: seq<Interval>, b: seq<Interval>, maxClauses: nat, t: Instant)
    requires Gapped(a) && Gapped(b)
    ensures Gapped(Intersect(a, b, maxClauses))
    ensures |Intersect(a, b, maxClauses)| < maxClauses ==>
              (Covers(a, t) && Covers(b, t) ==> Covers(Intersect(a, b, maxClauses), t))
  {
    IntersectFromGapped(a, b, 0, 0, [], maxClauses);
    IntersectFromComplete(a, b, 0, 0, [], maxClauses, t);
  }

  /** At most `maxClauses` windows, except that a limit of 0 still yields one. */
  lemma IntersectBound(a: seq<Interval>, b: seq<Interval>, maxClauses: nat)
    ensures |Intersect(a, b, maxClauses)| <= maxClauses || |Intersect(a, b, maxClauses)| == 1
  {
    IntersectFromSize(a, b, 0, 0, [], maxClauses);
  }

  // ------------------------------------------------------------ DURING source rows

  /** A DURING source row: `t_canonical` and `t_end`, each possibly missing. */
  datatype Row = Row(tCanonical: Option<Instant>, tEnd: Option<Instant>)

  predicate HasCanonical(r: Row) {
    r.tCanonical.Some?
  }

  /** The window of a row with a canonical time: `t_end` defaults to `t_canonical`, and
      both ends move out by `window`. */
  function Widened(r: Row, window: Span): Interval
    requires HasCanonical(r)
  {
    Interval(r.tCanonical.value - window, r.tEnd.GetOr(r.tCanonical.value) + window)
  }

  /** The row loop, without its limit: rows lacking `t_canonical` contribute nothing. */
  function WidenRows(rows: seq<Row>, window: Span): (r: seq<Interval>)
    decreases |rows|
  {
    if rows == [] then []
    else WidenRows(rows[..|rows| - 1], window) +
         (if HasCanonical(Last(rows)) then [Widened(Last(rows), window)] else [])
  }

  lemma {:induction false} WidenRowsAppend(x: seq<Row>, y: seq<Row>, window: Span)
    ensures WidenRows(x + y, window) == WidenRows(x, window) + WidenRows(y, window)
    decreases |y|
  {
    if y != [] {
      var y0 := y[..|y| - 1];
      assert (x + y)[..|x + y| - 1] == x + y0;
      WidenRowsAppend(x, y0, window);
    } else {
      assert x + y == x;
    }
  }

  /** One window per row that has a canonical time, in row order: the widening of the
      rows `Filter` keeps. */
  lemma {:induction false} WidenRowsFilter(rows: seq<Row>, window: Span)
    ensures |WidenRows(rows, window)| == |Filter(rows, HasCanonical)|
    ensures forall k :: 0 <= k < |WidenRows(rows, window)| ==>
              WidenRows(rows, window)[k] == Widened(Filter(rows, HasCanonical)[k], window)
    decreases |rows|
  {
    if rows != [] {
      var init := rows[..|rows| - 1];
      WidenRowsFilter(init, window);
      assert rows == init + [Last(rows)];
      FilterAppend(init, [Last(rows)], HasCanonical);
      assert Filter([Last(rows)], HasCanonical) == (if HasCanonical(Last(rows)) then [Last(rows)] else []);
    }
  }

  /** A point row at `t0` with window `w` gives `[t0 - w, t0 + w]`; a row without a
      canonical time is skipped. */
  lemma WidenRowsExample(t0: Instant, t1: Instant, w: Span)
    ensures WidenRows([Row(Some(t0), None), Row(None, Some(t1)), Row(Some(t0), Some(t1))], w) ==
            [Interval(t0 - w, t0 + w), Interval(t0 - w, t1 + w)]
  {
    var rows := [Row(Some(t0), None), Row(None, Some(t1)), Row(Some(t0), Some(t1))];
    assert rows[..2][..1][..0] == [];
    assert rows[..2][..1] == [rows[0]];
    assert rows[..2] == [rows[0], rows[1]];
    assert WidenRows(rows[..2][..1], w) == [Interval(t0 - w, t0 + w)];
    assert WidenRows(rows[..2], w) == [Interval(t0 - w, t0 + w)];
  }

  lemma {:induction false} FlattenAppend<T>(x: seq<seq<T>>, y: seq<seq<T>>)
    ensures Flatten(x + y) == Flatten(x) + Flatten(y)
    decreases |y|
  {
    if y != [] {
      var y0 := y[..|y| - 1];
      assert (x + y)[..|x + y| - 1] == x + y0;
      FlattenAppend(x, y0);
    } else {
      assert x + y == x;
    }
  }

  /** The loops over a DURING term's source plans and their rows: each source is queried
      in turn and its rows widened, a failing query ends the term with its error, and
      once the windows reach `maxSourceIntervals` they are cut to it and the remaining
      sources are never queried. */
  method CollectIntervals(sqls: seq<string>, db: Database, window: Span, maxSourceIntervals: nat)
    returns (r: Result<seq<Interval>, string>)
    ensures r == CollectTerm(sqls, db, window, maxSourceIntervals, [])
  {
    var intervals: seq<Interval> := [];
    ghost var pre: seq<Row> := [];
    var p := 0;
    while p < |sqls|
      invariant 0 <= p <= |sqls|
      invariant intervals == WidenRows(pre, window)
      invariant intervals == [] || |intervals| < maxSourceIntervals
      invariant CollectTerm(sqls[p..], db, window, maxSourceIntervals, intervals) ==
                CollectTerm(sqls, db, window, maxSourceIntervals, [])
    {
      CollectTermUnfold(sqls, p, db, window, maxSourceIntervals, intervals);
      var fetched := db.rows(sqls[p]);
      if fetched.Err? {
        return Err(fetched.error);
      }
      var rows := fetched.value;
      ghost var before := intervals;
      var q;
      intervals, q := CollectRows(intervals, pre, rows, window, maxSourceIntervals);
      WidenRowsAppend(pre, rows, window);
      if |intervals| >= maxSourceIntervals {
        CollectCut(pre, rows, q, window, maxSourceIntervals);
        return Ok(intervals[..maxSourceIntervals]);
      }
      assert rows[..q] == rows;
      pre := pre + rows;
      p := p + 1;
    }
    assert sqls[p..] == [];
    r := Ok(intervals);
  }

  /** One source of the term: its query, then either the cut at the limit or the rest. */
  lemma CollectTermUnfold(sqls: seq<string>, p: nat, db: Database, window: Span, maxSourceIntervals: nat, acc: seq<Interval>)
    requires p < |sqls|
    ensures CollectTerm(sqls[p..], db, window, maxSourceIntervals, acc) ==
              if db.rows(sqls[p]).Err? then Err(db.rows(sqls[p]).error)
              else
                var next := acc + WidenRows(db.rows(sqls[p]).value, window);
                if |next| >= maxSourceIntervals then Ok(Take(next, maxSourceIntervals))
                else CollectTerm(sqls[p + 1..], db, window, maxSourceIntervals, next)
  {
    assert sqls[p..][0] == sqls[p] && sqls[p..][1..] == sqls[p + 1..];
  }

  /** Cutting the windows at a point where they already reached the limit is the same as
      cutting all of the source's windows. */
  lemma CollectCut(pre: seq<Row>, rows: seq<Row>, q: nat, window: Span, maxSourceIntervals: nat)
    requires q <= |rows| && |WidenRows(pre + rows[..q], window)| >= maxSourceIntervals
    ensures Take(WidenRows(pre + rows, window), maxSourceIntervals) ==
            WidenRows(pre + rows[..q], window)[..maxSourceIntervals]
  {
    assert pre + rows == (pre + rows[..q]) + rows[q..];
    WidenRowsAppend(pre + rows[..q], rows[q..], window);
    TakeAppendLong(WidenRows(pre + rows[..q], window), WidenRows(rows[q..], window), maxSourceIntervals);
  }

  /** The row loop of one source plan, continuing from the windows of the rows `pre`:
      it stops right after the window that reaches the limit. */
  method CollectRows(intervals: seq<Interval>, ghost pre: seq<Row>, rows: seq<Row>, window: Span, maxSourceIntervals: nat)
    returns (out: seq<Interval>, q: nat)
    requires intervals == WidenRows(pre, window)
    requires intervals == [] || |intervals| < maxSourceIntervals
    ensures q <= |rows| && out == WidenRows(pre + rows[..q], window)
    ensures |out| < maxSourceIntervals ==> q == |rows|
  {
    out := intervals;
    q := 0;
    assert pre + rows[..0] == pre;
    while q < |rows|
      invariant 0 <= q <= |rows|
      invariant out == WidenRows(pre + rows[..q], window)
      invariant out == [] || |out| < maxSourceIntervals
    {
      var r := rows[q];
      WidenRowsPush(pre, rows, q, window);
      q := q + 1;
      if r.tCanonical.Some? {
        var start := r.tCanonical.value - window;
        var end := r.tEnd.GetOr(r.tCanonical.value) + window;
        out := out + [Interval(start, end)];
        if |out| >= maxSourceIntervals {
          return;
        }
      }
    }
  }

  lemma WidenRowsPush(pre: seq<Row>, rows: seq<Row>, q: nat, window: Span)
    requires q < |rows|
    ensures WidenRows(pre + rows[..q + 1], window) ==
              WidenRows(pre + rows[..q], window) + (if HasCanonical(rows[q]) then [Widened(rows[q], window)] else [])
  {
    var x := pre + rows[..q];
    PrefixPush(pre, rows, q);
    assert (x + [rows[q]])[..|x|] == x;
  }

  // ------------------------------------------------------------ the DURING windows

  datatype DuringOutcome = NoResults | Windows(windows: seq<Interval>)

  /** The fold over the merged terms: intersect in order, and stop with no results as
      soon as an intersection is empty. */
  function IntersectAll(acc: seq<Interval>, rest: seq<seq<Interval>>, maxClauses: nat): DuringOutcome
    decreases |rest|
  {
    if rest == [] then Windows(acc)
    else
      var x := Intersect(acc, rest[0], maxClauses);
      if x == [] then NoResults else IntersectAll(x, rest[1..], maxClauses)
  }

  /** The windows of the target query, from the merged windows of each term. */
  function IntersectTerms(merged: seq<seq<Interval>>, maxClauses: nat): DuringOutcome {
    if merged == [] then Windows([]) else IntersectAll(merged[0], merged[1..], maxClauses)
  }

  lemma {:induction false} IntersectAllSound(acc: seq<Interval>, rest: seq<seq<Interval>>, maxClauses: nat, t: Instant)
    requires Gapped(acc) && acc != []
    requires forall k :: 0 <= k < |rest| ==> Gapped(rest[k])
    ensures IntersectAll(acc, rest, maxClauses).Windows? ==>
              var w := IntersectAll(acc, rest, maxClauses).windows;
              w != [] && Gapped(w) &&
              (Covers(w, t) ==> Covers(acc, t) && forall k :: 0 <= k < |rest| ==> Covers(rest[k], t))
    decreases |rest|
  {
    if rest != [] {
      var x := Intersect(acc, rest[0], maxClauses);
      if x != [] {
        IntersectGappedComplete(acc, rest[0], maxClauses, t);
        IntersectSound(acc, rest[0], maxClauses, t);
        IntersectAllSound(x, rest[1..], maxClauses, t);
        if IntersectAll(acc, rest, maxClauses).Windows? {
          var w := IntersectAll(acc, rest, maxClauses).windows;
          if Covers(w, t) {
            forall k | 0 <= k < |rest| ensures Covers(rest[k], t) {
              if k > 0 {
                assert rest[1..][k - 1] == rest[k];
              }
            }
          }
        }
      }
    }
  }

  /** The target windows have strict gaps, are non-empty when there is a term, and every
      point of them lies in every term's merged windows. */
  lemma IntersectTermsSound(merged: seq<seq<Interval>>, maxClauses: nat, t: Instant)
    requires forall k :: 0 <= k < |merged| ==> Gapped(merged[k]) && merged[k] != []
    ensures IntersectTerms(merged, maxClauses).Windows? ==>
              var w := IntersectTerms(merged, maxClauses).windows;
              Gapped(w) && (merged != [] ==> w != []) &&
              (Covers(w, t) ==> forall k :: 0 <= k < |merged| ==> Covers(merged[k], t))
  {
    if merged != [] {
      assert forall k :: 0 <= k < |merged[1..]| ==> merged[1..][k] == merged[k + 1];
      IntersectAllSound(merged[0], merged[1..], maxClauses, t);
      if IntersectTerms(merged, maxClauses).Windows? {
        var w := IntersectTerms(merged, maxClauses).windows;
        if Covers(w, t) {
          forall k | 0 <= k < |merged| ensures Covers(merged[k], t) {
            if k > 0 {
              assert merged[1..][k - 1] == merged[k];
            }
          }
        }
      }
    }
  }

  /** Two terms whose windows do not meet give no results. */
  lemma IntersectTermsDisjoint()
    ensures IntersectTerms([[Interval(0, 10)], [Interval(20, 30)]], 10) == NoResults
  {
    var a := [Interval(0, 10)];
    var b := [Interval(20, 30)];
    assert IntersectFrom(a, b, 0, 0, [], 10) == IntersectFrom(a, b, 1, 0, [], 10);
    assert [[Interval(0, 10)], [Interval(20, 30)]][1..] == [b];
  }

  /** One overlap clause per window, joined by `OR`; `rfc3339` is chrono's
      `to_rfc3339_opts(Nanos, true)`. */
  function TimeClause(iv: Interval, rfc3339: Instant -> string): string {
    "(t_canonical <= d'" + rfc3339(iv.end) + "' AND t_end >= d'" + rfc3339(iv.start) + "')"
  }

  function TimeWhere(windows: seq<Interval>, rfc3339: Instant -> string): string {
    Join(Map(windows, iv => TimeClause(iv, rfc3339)), " OR ")
  }

  const MAX_TARGET_UUIDS: nat := 1000

  function TargetSql(table: string, baseWhere: string, windows: seq<Interval>, rfc3339: Instant -> string): string {
    "SELECT uuid FROM `" + table + "` WHERE (" + baseWhere + ") AND (" + TimeWhere(windows, rfc3339) +
    ") LIMIT 1000;"
  }

  /** With a single window the time condition is that window's overlap clause. */
  lemma TargetSqlOneWindow(table: string, baseWhere: string, iv: Interval, rfc3339: Instant -> string)
    ensures TargetSql(table, baseWhere, [iv], rfc3339) ==
            "SELECT uuid FROM `" + table + "` WHERE (" + baseWhere + ") AND ((t_canonical <= d'" +
            rfc3339(iv.end) + "' AND t_end >= d'" + rfc3339(iv.start) + "')) LIMIT 1000;"
  {
    TimeWhereOne(iv, rfc3339);
    var c := TimeClause(iv, rfc3339);
    Regroup("SELECT uuid FROM `" + table + "` WHERE (" + baseWhere + ") AND (", c, ") LIMIT 1000;");
  }

  lemma TimeWhereOne(iv: Interval, rfc3339: Instant -> string)
    ensures TimeWhere([iv], rfc3339) == TimeClause(iv, rfc3339)
  {
    assert Map([iv], (w: Interval) => TimeClause(w, rfc3339)) == [TimeClause(iv, rfc3339)];
  }

  lemma Regroup(p: string, c: string, q: string)
    ensures p + c + q == p + (c + q)
  {
  }

  // ------------------------------------------------------------ key de-duplication

  function KeySet<T, K(==)>(s: seq<T>, key: T -> K): set<K> {
    set i | 0 <= i < |s| :: key(s[i])
  }

  lemma KeySetSnoc<T, K>(s: seq<T>, x: T, key: T -> K)
    ensures KeySet(s + [x], key) == KeySet(s, key) + {key(x)}
  {
    var l := KeySet(s + [x], key);
    var r := KeySet(s, key) + {key(x)};
    forall y | y in l ensures y in r {
      var i :| 0 <= i < |s| + 1 && y == key((s + [x])[i]);
      if i < |s| {
        assert (s + [x])[i] == s[i];
      }
    }
    forall y | y in r ensures y in l {
      if y == key(x) {
        assert (s + [x])[|s|] == x;
      } else {
        var i :| 0 <= i < |s| && y == key(s[i]);
        assert (s + [x])[i] == s[i];
      }
    }
  }

  /** The elements of `s` whose key has not occurred earlier, in order: what a loop that
      pushes an element when its key enters a `seen` set keeps. */
  function Firsts<T, K(==)>(s: seq<T>, key: T -> K): (r: seq<T>)
    decreases |s|
  {
    if s == [] then []
    else
      var init := s[..|s| - 1];
      Firsts(init, key) + (if key(Last(s)) in KeySet(init, key) then [] else [Last(s)])
  }

  /** One more element: it is kept exactly when its key is new, and its key joins the set. */
  lemma FirstsSnoc<T, K>(s: seq<T>, x: T, key: T -> K)
    ensures Firsts(s + [x], key) == Firsts(s, key) + (if key(x) in KeySet(s, key) then [] else [x])
    ensures KeySet(s + [x], key) == KeySet(s, key) + {key(x)}
  {
    assert (s + [x])[..|s|] == s;
    KeySetSnoc(s, x, key);
  }

  /** Nothing is lost: the kept elements have exactly the keys of the input. */
  lemma {:induction false} FirstsKeys<T, K>(s: seq<T>, key: T -> K)
    ensures KeySet(Firsts(s, key), key) == KeySet(s, key)
    decreases |s|
  {
    if s != [] {
      var init := s[..|s| - 1];
      FirstsKeys(init, key);
      assert s == init + [Last(s)];
      KeySetSnoc(init, Last(s), key);
      if key(Last(s)) !in KeySet(init, key) {
        KeySetSnoc(Firsts(init, key), Last(s), key);
      } else {
        assert Firsts(s, key) == Firsts(init, key);
      }
    }
  }

  /** No key is kept twice, and every kept element comes from the input. */
  lemma {:induction false} FirstsDistinct<T, K>(s: seq<T>, key: T -> K)
    ensures forall i, j :: 0 <= i < j < |Firsts(s, key)| ==> key(Firsts(s, key)[i]) != key(Firsts(s, key)[j])
    ensures forall i :: 0 <= i < |Firsts(s, key)| ==> Firsts(s, key)[i] in s
    decreases |s|
  {
    if s != [] {
      var init := s[..|s| - 1];
      FirstsDistinct(init, key);
      FirstsKeys(init, key);
      var f := Firsts(init, key);
      var r := Firsts(s, key);
      if key(Last(s)) !in KeySet(init, key) {
        assert r == f + [Last(s)];
        forall i | 0 <= i < |f| ensures key(r[i]) != key(Last(s)) {
          assert key(f[i]) in KeySet(f, key);
        }
      }
      forall i | 0 <= i < |r| ensures r[i] in s {
        if i < |f| {
          assert r[i] == f[i] && f[i] in init;
        }
      }
    }
  }

  /** A key first seen at position `k` keeps the element at `k`. */
  lemma {:induction false} FirstsKeepsFirst<T, K>(s: seq<T>, key: T -> K, k: nat)
    requires k < |s| && key(s[k]) !in KeySet(s[..k], key)
    ensures s[k] in Firsts(s, key)
    decreases |s|
  {
    var init := s[..|s| - 1];
    if k == |s| - 1 {
      assert init == s[..k];
      assert Firsts(s, key) == Firsts(init, key) + [s[k]];
    } else {
      assert init[..k] == s[..k] && init[k] == s[k];
      FirstsKeepsFirst(init, key, k);
    }
  }

  /** The key MultiQuery compares: `format!("{}:{}", table_name, uuid)`. */
  function MultiKey(k: FrameKey): string {
    TableName(k.origin) + ":" + ToString(k.uuid)
  }

  /** MultiQuery: the sub-plans' keys in order, later duplicates dropped. */
  method MergeSubplanKeys(results: seq<seq<FrameKey>>) returns (allKeys: seq<FrameKey>)
    ensures allKeys == Firsts(Flatten(results), MultiKey)
  {
    allKeys := [];
    var seen: set<string> := {};
    var p := 0;
    while p < |results|
      invariant 0 <= p <= |results|
      invariant allKeys == Firsts(Flatten(results[..p]), MultiKey)
      invariant seen == KeySet(Flatten(results[..p]), MultiKey)
    {
      allKeys, seen := PushFirsts(allKeys, seen, Flatten(results[..p]), results[p], MultiKey);
      FlattenSnoc(results, p);
      p := p + 1;
    }
    assert results[..p] == results;
  }

  /** The loop over one sub-plan's keys, continuing after the elements `pre`: an element
      is pushed when its key enters the `seen` set. */
  method PushFirsts<T, K>(acc: seq<T>, seen: set<K>, ghost pre: seq<T>, xs: seq<T>, key: T -> K)
    returns (acc': seq<T>, seen': set<K>)
    requires acc == Firsts(pre, key) && seen == KeySet(pre, key)
    ensures acc' == Firsts(pre + xs, key) && seen' == KeySet(pre + xs, key)
  {
    acc', seen' := acc, seen;
    assert pre + xs[..0] == pre;
    for q := 0 to |xs|
      invariant acc' == Firsts(pre + xs[..q], key)
      invariant seen' == KeySet(pre + xs[..q], key)
    {
      var x := xs[q];
      PrefixPush(pre, xs, q);
      FirstsSnoc(pre + xs[..q], x, key);
      var k := key(x);
      if k !in seen' {
        seen' := seen' + {k};
        acc' := acc' + [x];
      }
    }
    assert xs[..|xs|] == xs;
  }

  /** The uuids of the strings that parse, in order; the others are dropped. */
  function ParsedUuids(ss: seq<string>): (r: seq<Uuid>)
    ensures |r| <= |ss|
    decreases |ss|
  {
    if ss == [] then []
    else ParsedUuids(ss[..|ss| - 1]) + (match Parse(Last(ss)) case Some(u) => [u] case None => [])
  }

  /** The parsed uuids are exactly those of the strings that parse. */
  lemma {:induction false} ParsedUuidsMembers(ss: seq<string>, u: Uuid)
    ensures u in ParsedUuids(ss) <==> exists k :: 0 <= k < |ss| && Parse(ss[k]) == Some(u)
    decreases |ss|
  {
    if ss != [] {
      var init := ss[..|ss| - 1];
      ParsedUuidsMembers(init, u);
      if exists k :: 0 <= k < |ss| && Parse(ss[k]) == Some(u) {
        var k :| 0 <= k < |ss| && Parse(ss[k]) == Some(u);
        if k < |init| {
          assert init[k] == ss[k];
        }
      }
      if exists k :: 0 <= k < |init| && Parse(init[k]) == Some(u) {
        var k :| 0 <= k < |init| && Parse(init[k]) == Some(u);
        assert ss[k] == init[k];
      }
    }
  }

  function KeysFor(us: seq<Uuid>, origin: DataOrigin): (r: seq<FrameKey>)
    ensures |r| == |us| && forall k :: 0 <= k < |us| ==> r[k] == FrameKey(us[k], origin)
  {
    seq(|us|, k requires 0 <= k < |us| => FrameKey(us[k], origin))
  }

  lemma ParsedUuidsStep(ss: seq<string>, i: nat)
    requires i < |ss|
    ensures ParsedUuids(ss[..i + 1]) ==
              ParsedUuids(ss[..i]) + (match Parse(ss[i]) case Some(u) => [u] case None => [])
  {
    assert ss[..i + 1][..i] == ss[..i];
  }

  lemma KeysForSnoc(us: seq<Uuid>, u: Uuid, origin: DataOrigin)
    ensures KeysFor(us + [u], origin) == KeysFor(us, origin) + [FrameKey(u, origin)]
  {
  }

  function KeyUuid(k: FrameKey): Uuid {
    k.uuid
  }

  /** TableQuery: one key per returned uuid that parses, in row order. */
  method TableKeys(results: seq<string>, origin: DataOrigin) returns (keys: seq<FrameKey>)
    ensures keys == KeysFor(ParsedUuids(results), origin)
  {
    keys := [];
    var i := 0;
    while i < |results|
      invariant 0 <= i <= |results|
      invariant keys == KeysFor(ParsedUuids(results[..i]), origin)
    {
      assert results[..i + 1][..i] == results[..i];
      match Parse(results[i]) {
        case Some(u) =>
          keys := keys + [FrameKey(u, origin)];
        case None =>
      }
      i := i + 1;
    }
    assert results[..i] == results;
  }

  /** The DURING target rows: parsed uuids, later duplicates dropped. */
  method TargetKeys(results: seq<string>, origin: DataOrigin) returns (keys: seq<FrameKey>)
    ensures keys == Firsts(KeysFor(ParsedUuids(results), origin), KeyUuid)
  {
    keys := [];
    var seen: set<Uuid> := {};
    var i := 0;
    while i < |results|
      invariant 0 <= i <= |results|
      invariant keys == Firsts(KeysFor(ParsedUuids(results[..i]), origin), KeyUuid)
      invariant seen == KeySet(KeysFor(ParsedUuids(results[..i]), origin), KeyUuid)
    {
      ghost var us := ParsedUuids(results[..i]);
      ParsedUuidsStep(results, i);
      match Parse(results[i]) {
        case Some(u) =>
          var k := FrameKey(u, origin);
          assert ParsedUuids(results[..i + 1]) == us + [u];
          KeysForSnoc(us, u, origin);
          FirstsSnoc(KeysFor(us, origin), k, KeyUuid);
          assert KeyUuid(k) == u;
          if u !in seen {
            seen := seen + {u};
            keys := keys + [k];
          }
        case None =>
          assert ParsedUuids(results[..i + 1]) == us;
      }
      i := i + 1;
    }
    assert results[..i] == results;
  }

  /** A repeated uuid and a string that is no uuid leave a single key. */
  lemma TargetKeysExample(u: Uuid, origin: DataOrigin)
    ensures Firsts(KeysFor(ParsedUuids([ToString(u), "", ToString(u)]), origin), KeyUuid) == [FrameKey(u, origin)]
  {
    var ss := [ToString(u), "", ToString(u)];
    ParseToString(u);
    assert Parse("") == None;
    assert ss[..2][..1][..0] == [];
    assert ss[..2][..1] == [ToString(u)];
    assert ss[..2] == [ToString(u), ""];
    assert ParsedUuids(ss[..2][..1]) == [u];
    assert ParsedUuids(ss[..2]) == [u];
    assert ParsedUuids(ss) == [u, u];
    var ks := KeysFor([u, u], origin);
    assert ks[..1][..0] == [];
    assert ks[..1] == [FrameKey(u, origin)];
    KeySetSnoc([], ks[0], KeyUuid);
    assert [] + [ks[0]] == ks[..1];
    assert KeySet(ks[..1], KeyUuid) == {u};
    assert Firsts(ks[..1], KeyUuid) == [ks[0]];
    assert KeysFor(ParsedUuids(ss), origin) == ks;
    assert Firsts(ks, KeyUuid) == Firsts(ks[..1], KeyUuid);
  }

  // ------------------------------------------------------------ execute

  datatype DuringTerm = DuringTerm(sourceSqls: seq<string>, window: Span)

  datatype Plan =
    | TableQuery(table: string, origin: DataOrigin, sql: string)
    | MultiQuery(plans: seq<Plan>)
    | DuringQuery(targetTable: string, targetOrigin: DataOrigin, targetBaseWhere: string,
                  duringTerms: seq<DuringTerm>, maxSourceIntervals: nat, maxTimeClauses: nat)
    | Unsupported(msg: string)

  /** The database as the answers it gives: the `uuid` column of a query, or the
      `t_canonical`/`t_end` rows of a DURING source query, or an error. */
  datatype Database = Database(uuids: string -> Result<seq<string>, string>,
                               rows: string -> Result<seq<Row>, string>)

  /** The source queries of one DURING term, run one at a time after the windows `acc`:
      a failing query ends the term with its error, and once the windows reach
      `maxSourceIntervals` they are cut to it and the later sources are not queried. */
  function CollectTerm(sqls: seq<string>, db: Database, window: Span, maxSourceIntervals: nat, acc: seq<Interval>)
    : (r: Result<seq<Interval>, string>)
    ensures r.Ok? && |acc| <= maxSourceIntervals ==> |r.value| <= maxSourceIntervals
    decreases |sqls|
  {
    if sqls == [] then Ok(acc)
    else
      var rows :- db.rows(sqls[0]);
      var next := acc + WidenRows(rows, window);
      if |next| >= maxSourceIntervals then Ok(Take(next, maxSourceIntervals))
      else CollectTerm(sqls[1..], db, window, maxSourceIntervals, next)
  }

  /** A reference for the term's windows: every source queried up front, the first
      error returned. */
  function FetchRows(sqls: seq<string>, db: Database): Result<seq<seq<Row>>, string>
    decreases |sqls|
  {
    if sqls == [] then Ok([])
    else
      var rows :- db.rows(sqls[0]);
      var rest :- FetchRows(sqls[1..], db);
      Ok([rows] + rest)
  }

  /** When every source answers, the term's windows are the first `maxSourceIntervals`
      widened windows of all the sources' rows, in source and row order, continuing after
      the rows `pre`. */
  lemma {:induction false} CollectTermFetched(sqls: seq<string>, db: Database, window: Span, maxSourceIntervals: nat, pre: seq<Row>)
    requires WidenRows(pre, window) == [] || |WidenRows(pre, window)| < maxSourceIntervals
    ensures FetchRows(sqls, db).Ok? ==>
              CollectTerm(sqls, db, window, maxSourceIntervals, WidenRows(pre, window)) ==
              Ok(Take(WidenRows(pre + Flatten(FetchRows(sqls, db).value), window), maxSourceIntervals))
    decreases |sqls|
  {
    var all := FetchRows(sqls, db);
    if all.Ok? {
      if sqls == [] {
        assert pre + Flatten(all.value) == pre;
      } else {
        var rows := db.rows(sqls[0]).value;
        var rest := FetchRows(sqls[1..], db).value;
        assert all.value == [rows] + rest;
        FlattenCons(rows, rest);
        assert pre + Flatten(all.value) == (pre + rows) + Flatten(rest);
        WidenRowsAppend(pre, rows, window);
        var next := WidenRows(pre + rows, window);
        if |next| >= maxSourceIntervals {
          WidenRowsAppend(pre + rows, Flatten(rest), window);
          TakeAppendLong(next, WidenRows(Flatten(rest), window), maxSourceIntervals);
        } else {
          CollectTermFetched(sqls[1..], db, window, maxSourceIntervals, pre + rows);
        }
      }
    }
  }

  /** The laziness the eager reference lacks: when the first source alone reaches the
      limit, a failing second source is never queried, so the term succeeds where
      querying every source first fails. */
  lemma LaterSourceNotQueried(db: Database, t0: Instant, w: Span)
    requires db.rows("a") == Ok([Row(Some(t0), None)]) && db.rows("b").Err?
    ensures CollectTerm(["a", "b"], db, w, 1, []) == Ok([Interval(t0 - w, t0 + w)])
    ensures FetchRows(["a", "b"], db).Err?
  {
    var rows := [Row(Some(t0), None)];
    assert rows[..0] == [] && Last(rows) == rows[0] && HasCanonical(rows[0]);
    assert Widened(rows[0], w) == Interval(t0 - w, t0 + w);
    assert WidenRows(rows, w) == WidenRows(rows[..0], w) + [Widened(rows[0], w)];
    var next := [] + WidenRows(rows, w);
    assert next == [Interval(t0 - w, t0 + w)];
    assert Take(next, 1) == next;
    assert ["a", "b"][0] == "a" && ["a", "b"][1..] == ["b"];
  }

  /** The per-term loop: collect and merge each term in turn; `None` when a term merges
      to nothing, which ends the query before the later terms are run. */
  function RunTerms(terms: seq<DuringTerm>, db: Database, maxSourceIntervals: nat, maxTimeClauses: nat): (r: Result<Option<seq<seq<Interval>>>, string>)
    ensures r.Ok? && r.value.Some? ==>
              |r.value.value| == |terms| &&
              forall k :: 0 <= k < |terms| ==> Gapped(r.value.value[k]) && r.value.value[k] != []
    decreases |terms|
  {
    if terms == [] then Ok(Some([]))
    else
      var intervals :- CollectTerm(terms[0].sourceSqls, db, terms[0].window, maxSourceIntervals, []);
      var merged := Merge(intervals, maxTimeClauses);
      MergeGapped(intervals, maxTimeClauses);
      if merged == [] then Ok(None)
      else
        var rest :- RunTerms(terms[1..], db, maxSourceIntervals, maxTimeClauses);
        Ok(if rest.None? then None else Some([merged] + rest.value))
  }

  function AllOk(rs: seq<Result<seq<FrameKey>, string>>): (r: Result<seq<seq<FrameKey>>, string>)
    ensures r.Ok? ==> |r.value| == |rs| && forall k :: 0 <= k < |rs| ==> rs[k] == Ok(r.value[k])
    decreases |rs|
  {
    if rs == [] then Ok([])
    else
      var first :- rs[0];
      var rest :- AllOk(rs[1..]);
      Ok([first] + rest)
  }

  /** `execute`. */
  function Execute(plan: Plan, db: Database, rfc3339: Instant -> string): (r: Result<seq<FrameKey>, string>)
    ensures plan.TableQuery? ==> (r.Ok? <==> db.uuids(plan.sql).Ok?)
    ensures plan.TableQuery? && r.Ok? ==>
              |r.value| <= |db.uuids(plan.sql).value| && forall i :: 0 <= i < |r.value| ==> r.value[i].origin == plan.origin
    ensures plan.Unsupported? ==> r.Err?
    decreases plan
  {
    match plan
    case TableQuery(_, origin, sql) =>
      var results :- db.uuids(sql);
      Ok(KeysFor(ParsedUuids(results), origin))
    case MultiQuery(plans) =>
      var subResults := seq(|plans|, i requires 0 <= i < |plans| => Execute(plans[i], db, rfc3339));
      var all :- AllOk(subResults);
      Ok(Firsts(Flatten(all), MultiKey))
    case DuringQuery(table, origin, baseWhere, terms, maxSource, maxClauses) =>
      var merged :- RunTerms(terms, db, maxSource, maxClauses);
      if merged.None? then Ok([])
      else
        var outcome := IntersectTerms(merged.value, maxClauses);
        if outcome.NoResults? then Ok([])
        else
          var results :- db.uuids(TargetSql(table, baseWhere, outcome.windows, rfc3339));
          Ok(Firsts(KeysFor(ParsedUuids(results), origin), KeyUuid))
    case Unsupported(msg) =>
      Err("Unsupported query plan: " + msg)
  }

  /** An unsupported plan is an error naming it. */
  lemma ExecuteUnsupported(msg: string, db: Database, rfc3339: Instant -> string)
    ensures Execute(Unsupported(msg), db, rfc3339).Err?
    ensures Execute(Unsupported(msg), db, rfc3339).error == "Unsupported query plan: " + msg
  {
  }

  /** A MultiQuery fails with the first failing sub-plan; otherwise its keys have distinct
      `table:uuid` strings and are exactly the sub-plans' keys up to duplicates. */
  lemma ExecuteMulti(plans: seq<Plan>, db: Database, rfc3339: Instant -> string)
    ensures var r := Execute(MultiQuery(plans), db, rfc3339);
            var all := AllOk(seq(|plans|, i requires 0 <= i < |plans| => Execute(plans[i], db, rfc3339)));
            r.Ok? ==>
              all.Ok? && |all.value| == |plans| &&
              (forall k :: 0 <= k < |plans| ==> Execute(plans[k], db, rfc3339) == Ok(all.value[k])) &&
              (forall i, j :: 0 <= i < j < |r.value| ==> MultiKey(r.value[i]) != MultiKey(r.value[j])) &&
              KeySet(r.value, MultiKey) == KeySet(Flatten(all.value), MultiKey)
  {
    var subResults := seq(|plans|, i requires 0 <= i < |plans| => Execute(plans[i], db, rfc3339));
    var all := AllOk(subResults);
    if all.Ok? {
      FirstsDistinct(Flatten(all.value), MultiKey);
      FirstsKeys(Flatten(all.value), MultiKey);
    }
  }

  /** A DURING query returns keys of the target origin with distinct uuids; a first term
      whose source rows give no window ends it with no keys. */
  lemma ExecuteDuring(table: string, origin: DataOrigin, baseWhere: string, terms: seq<DuringTerm>,
                      maxSource: nat, maxClauses: nat, db: Database, rfc3339: Instant -> string)
    ensures var r := Execute(DuringQuery(table, origin, baseWhere, terms, maxSource, maxClauses), db, rfc3339);
            r.Ok? ==>
              (forall i :: 0 <= i < |r.value| ==> r.value[i].origin == origin) &&
              (forall i, j :: 0 <= i < j < |r.value| ==> r.value[i].uuid != r.value[j].uuid)
    ensures terms != [] && CollectTerm(terms[0].sourceSqls, db, terms[0].window, maxSource, []) == Ok([]) ==>
              Execute(DuringQuery(table, origin, baseWhere, terms, maxSource, maxClauses), db, rfc3339) == Ok([])
  {
    var r := Execute(DuringQuery(table, origin, baseWhere, terms, maxSource, maxClauses), db, rfc3339);
    if r.Ok? && r.value != [] {
      var merged := RunTerms(terms, db, maxSource, maxClauses);
      var windows := IntersectTerms(merged.value.value, maxClauses).windows;
      var results := db.uuids(TargetSql(table, baseWhere, windows, rfc3339)).value;
      var ks := KeysFor(ParsedUuids(results), origin);
      FirstsDistinct(ks, KeyUuid);
    }
    if terms != [] && CollectTerm(terms[0].sourceSqls, db, terms[0].window, maxSource, []) == Ok([]) {
      assert Merge([], maxClauses) == [];
    }
  }
}
