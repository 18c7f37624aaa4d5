/** Screen replay for the server (server/src/replay.rs): replay steps over screen frames
    carry the frame's key, and context records whose closed time span meets a step's
    padded span are attached to it by a two-pointer sweep over the records sorted by
    `(start, uuid, table name)`. */
module ServerReplay {
  import opened Wrappers
  import opened Time
  import opened Sorting
  import opened Uuid
  import opened Origin
  import Replay

  /** `ReplayStepInternal`. */
  datatype StepInternal = StepInternal(start: Instant, end: Instant, screenKey: FrameKey, contextKeys: seq<FrameKey>)

  /** `IntervalKey`: a context record's key and its closed time span. */
  datatype IntervalKey = IntervalKey(key: FrameKey, start: Instant, end: Instant)

  /** A screen frame: its uuid text and its time. */
  type ScreenFrame = (string, Instant)

  /** `dt_key`: whole seconds and sub-second nanoseconds. */
  function DtKey(t: Instant): (int, int) {
    (Timestamp(t), SubsecNanos(t))
  }

  lemma DtKeyInjective(a: Instant, b: Instant)
    requires DtKey(a) == DtKey(b)
    ensures a == b
  {
    assert a == Timestamp(a) * NANOS_PER_SEC + SubsecNanos(a);
    assert b == Timestamp(b) * NANOS_PER_SEC + SubsecNanos(b);
  }

  /** The `sort_by_key` order on frames: by time only. */
  function FrameLe(a: ScreenFrame, b: ScreenFrame): bool { a.1 <= b.1 }

  lemma FrameLeTotalPreorder()
    ensures TotalPreorder(FrameLe)
  {
  }

  function Times(fs: seq<ScreenFrame>): (ts: seq<Instant>)
    ensures |ts| == |fs|
    ensures forall i :: 0 <= i < |fs| ==> ts[i] == fs[i].1
  {
    seq(|fs|, i requires 0 <= i < |fs| => fs[i].1)
  }

  /** The `time_to_uuid` map after inserting the frames in order: a later frame with the
      same key overwrites an earlier one. */
  function UuidMap(fs: seq<ScreenFrame>): map<(int, int), string>
    decreases |fs|
  {
    if fs == [] then map[]
    else UuidMap(fs[..|fs| - 1])[DtKey(fs[|fs| - 1].1) := fs[|fs| - 1].0]
  }

  /** The `filter_map` body for one step. */
  function ToInternal(s: Replay.ReplayStep, m: map<(int, int), string>, origin: DataOrigin): Option<StepInternal> {
    if DtKey(s.start) !in m then None
    else match Parse(m[DtKey(s.start)])
      case None => None
      case Some(u) => Some(StepInternal(s.start, s.end, FrameKey(u, origin), []))
  }

  function FilterMapSteps(steps: seq<Replay.ReplayStep>, m: map<(int, int), string>, origin: DataOrigin): seq<StepInternal>
    decreases |steps|
  {
    if steps == [] then []
    else
      var o := ToInternal(steps[|steps| - 1], m, origin);
      FilterMapSteps(steps[..|steps| - 1], m, origin) + (if o.Some? then [o.value] else [])
  }

  /** What `build_replay_steps_for_screen` returns. */
  function ScreenSteps(frames: seq<ScreenFrame>, origin: DataOrigin, windowEnd: Instant): seq<StepInternal> {
    var sorted := Sort(frames, FrameLe);
    FilterMapSteps(Replay.ReplaySteps(Times(sorted), windowEnd), UuidMap(sorted), origin)
  }

  /** `build_replay_steps_for_screen`. */
  method BuildReplayStepsForScreen(frames: seq<ScreenFrame>, origin: DataOrigin, windowEnd: Instant)
    returns (out: seq<StepInternal>)
    ensures out == ScreenSteps(frames, origin, windowEnd)
  {
    var sorted := Sort(frames, FrameLe);
    var times, timeToUuid := IndexFrames(sorted);
    var steps := Replay.BuildReplaySteps(times, windowEnd);
    out := KeySteps(steps, timeToUuid, origin);
  }

  /** The loop that collects the frame times and fills `time_to_uuid`. */
  method IndexFrames(sorted: seq<ScreenFrame>) returns (times: seq<Instant>, timeToUuid: map<(int, int), string>)
    ensures times == Times(sorted) && timeToUuid == UuidMap(sorted)
  {
    timeToUuid := map[];
    times := [];
    var i := 0;
    while i < |sorted|
      invariant 0 <= i <= |sorted|
      invariant times == Times(sorted[..i])
      invariant timeToUuid == UuidMap(sorted[..i])
    {
      assert sorted[..i + 1][..i] == sorted[..i];
      times := times + [sorted[i].1];
      timeToUuid := timeToUuid[DtKey(sorted[i].1) := sorted[i].0];
      i := i + 1;
    }
    assert sorted[..|sorted|] == sorted;
  }

  /** The `filter_map` over the replay steps. */
  method KeySteps(steps: seq<Replay.ReplayStep>, timeToUuid: map<(int, int), string>, origin: DataOrigin)
    returns (out: seq<StepInternal>)
    ensures out == FilterMapSteps(steps, timeToUuid, origin)
  {
    out := [];
    var k := 0;
    while k < |steps|
      invariant 0 <= k <= |steps|
      invariant out == FilterMapSteps(steps[..k], timeToUuid, origin)
    {
      assert steps[..k + 1][..k] == steps[..k];
      var s := steps[k];
      if DtKey(s.start) in timeToUuid {
        var parsed := Parse(timeToUuid[DtKey(s.start)]);
        if parsed.Some? {
          out := out + [StepInternal(s.start, s.end, FrameKey(parsed.value, origin), [])];
        }
      }
      k := k + 1;
    }
    assert steps[..|steps|] == steps;
  }

  /** The uuid text of the last frame, in input order, at time `t`. */
  function LastAt(fs: seq<ScreenFrame>, t: Instant): Option<string>
    decreases |fs|
  {
    if fs == [] then None
    else if fs[|fs| - 1].1 == t then Some(fs[|fs| - 1].0)
    else LastAt(fs[..|fs| - 1], t)
  }

  /** The map holds, for each frame time, the uuid of the last frame inserted at it. */
  lemma {:induction false} UuidMapIsLast(fs: seq<ScreenFrame>, t: Instant)
    ensures DtKey(t) in UuidMap(fs) <==> LastAt(fs, t).Some?
    ensures DtKey(t) in UuidMap(fs) ==> UuidMap(fs)[DtKey(t)] == LastAt(fs, t).value
    decreases |fs|
  {
    if fs != [] {
      UuidMapIsLast(fs[..|fs| - 1], t);
      if DtKey(fs[|fs| - 1].1) == DtKey(t) {
        DtKeyInjective(fs[|fs| - 1].1, t);
      }
    }
  }

  /** The frame at time `t` that comes last is the last of the frames equivalent to
      `(_, t)` under the sort order. */
  lemma {:induction false} LastAtEquivalents(fs: seq<ScreenFrame>, t: Instant)
    ensures var e := Equivalents(fs, ("", t), FrameLe);
      LastAt(fs, t) == if e == [] then None else Some(e[|e| - 1].0)
    decreases |fs|
  {
    if fs != [] {
      var init := fs[..|fs| - 1];
      LastAtEquivalents(init, t);
      EquivalentsAppend(init, [fs[|fs| - 1]], ("", t), FrameLe);
      assert init + [fs[|fs| - 1]] == fs;
    }
  }

  /** Because `sort_by_key` is stable, the frame that wins a time's map slot is the last
      frame at that time in the caller's order. */
  lemma LastAtSorted(fs: seq<ScreenFrame>, t: Instant)
    ensures LastAt(Sort(fs, FrameLe), t) == LastAt(fs, t)
  {
    FrameLeTotalPreorder();
    SortStable(fs, ("", t), FrameLe);
    LastAtEquivalents(fs, t);
    LastAtEquivalents(Sort(fs, FrameLe), t);
  }

  /** The reference step for one replay step: the key is the last frame at its start. */
  function RefInternal(s: Replay.ReplayStep, frames: seq<ScreenFrame>, origin: DataOrigin): Option<StepInternal> {
    match LastAt(frames, s.start)
    case None => None
    case Some(text) =>
      match Parse(text)
      case None => None
      case Some(u) => Some(StepInternal(s.start, s.end, FrameKey(u, origin), []))
  }

  function RefSteps(steps: seq<Replay.ReplayStep>, frames: seq<ScreenFrame>, origin: DataOrigin): seq<StepInternal>
    decreases |steps|
  {
    if steps == [] then []
    else
      var o := RefInternal(steps[|steps| - 1], frames, origin);
      RefSteps(steps[..|steps| - 1], frames, origin) + (if o.Some? then [o.value] else [])
  }

  lemma TimesSameMembers(a: seq<ScreenFrame>, b: seq<ScreenFrame>)
    requires multiset(a) == multiset(b)
    ensures forall t :: t in Times(a) <==> t in Times(b)
  {
    forall t | t in Times(a) ensures t in Times(b) {
      var i :| 0 <= i < |a| && Times(a)[i] == t;
      assert a[i] in multiset(b);
      var j :| 0 <= j < |b| && b[j] == a[i];
      assert Times(b)[j] == t;
    }
    forall t | t in Times(b) ensures t in Times(a) {
      var i :| 0 <= i < |b| && Times(b)[i] == t;
      assert b[i] in multiset(a);
      var j :| 0 <= j < |a| && a[j] == b[i];
      assert Times(a)[j] == t;
    }
  }

  lemma {:induction false} FilterMapIsRef(steps: seq<Replay.ReplayStep>, frames: seq<ScreenFrame>, origin: DataOrigin)
    ensures FilterMapSteps(steps, UuidMap(Sort(frames, FrameLe)), origin) == RefSteps(steps, frames, origin)
    decreases |steps|
  {
    if steps != [] {
      FilterMapIsRef(steps[..|steps| - 1], frames, origin);
      var t := steps[|steps| - 1].start;
      UuidMapIsLast(Sort(frames, FrameLe), t);
      LastAtSorted(frames, t);
    }
  }

  /** `build_replay_steps_for_screen` without the sort and the map: the replay steps of
      the frame times, each keyed by the uuid of the last frame (in the caller's order) at
      its start and kept only when that uuid parses. */
  lemma ScreenStepsReference(frames: seq<ScreenFrame>, origin: DataOrigin, windowEnd: Instant)
    ensures ScreenSteps(frames, origin, windowEnd) ==
            RefSteps(Replay.ReplaySteps(Times(frames), windowEnd), frames, origin)
  {
    var sorted := Sort(frames, FrameLe);
    TimesSameMembers(sorted, frames);
    Replay.ReplayStepsSetDetermined(Times(sorted), Times(frames), windowEnd);
    FilterMapIsRef(Replay.ReplaySteps(Times(frames), windowEnd), frames, origin);
  }

  /** Every reference step comes from a replay step, has the screen origin, its uuid
      parsed from the last frame at its start, and no context keys yet. */
  lemma {:induction false} RefStepsSound(steps: seq<Replay.ReplayStep>, frames: seq<ScreenFrame>, origin: DataOrigin)
    ensures var out := RefSteps(steps, frames, origin);
      |out| <= |steps| &&
      forall k :: 0 <= k < |out| ==> RefStepOf(out[k], steps, frames, origin)
    decreases |steps|
  {
    if steps != [] {
      var init := steps[..|steps| - 1];
      RefStepsSound(init, frames, origin);
      var out := RefSteps(steps, frames, origin);
      var prev := RefSteps(init, frames, origin);
      forall k | 0 <= k < |out| ensures RefStepOf(out[k], steps, frames, origin) {
        if k < |prev| {
          assert RefStepOf(prev[k], init, frames, origin);
          var i :| 0 <= i < |init| && init[i] == Replay.ReplayStep(prev[k].start, prev[k].end);
          assert steps[i] == init[i];
        } else {
          assert steps[|steps| - 1] in steps;
        }
      }
    }
  }

  predicate RefStepOf(o: StepInternal, steps: seq<Replay.ReplayStep>, frames: seq<ScreenFrame>, origin: DataOrigin) {
    Replay.ReplayStep(o.start, o.end) in steps &&
    o.screenKey.origin == origin && o.contextKeys == [] &&
    LastAt(frames, o.start).Some? &&
    Parse(LastAt(frames, o.start).value) == Some(o.screenKey.uuid)
  }

  /** When every frame uuid parses and every step starts at a frame time, no step is
      dropped. */
  lemma {:induction false} RefStepsNoDrop(steps: seq<Replay.ReplayStep>, frames: seq<ScreenFrame>, origin: DataOrigin)
    requires forall i :: 0 <= i < |steps| ==> steps[i].start in Times(frames)
    requires forall i :: 0 <= i < |frames| ==> Parse(frames[i].0).Some?
    ensures var out := RefSteps(steps, frames, origin);
      |out| == |steps| &&
      forall k :: 0 <= k < |out| ==> out[k].start == steps[k].start && out[k].end == steps[k].end
    decreases |steps|
  {
    if steps != [] {
      var init := steps[..|steps| - 1];
      assert forall i :: 0 <= i < |init| ==> init[i] == steps[i];
      RefStepsNoDrop(init, frames, origin);
      var last := steps[|steps| - 1];
      LastAtIsFrame(frames, last.start);
      var i :| 0 <= i < |frames| && frames[i] == (LastAt(frames, last.start).value, last.start);
      assert Parse(frames[i].0).Some?;
    }
  }

  lemma {:induction false} LastAtIsFrame(fs: seq<ScreenFrame>, t: Instant)
    ensures t in Times(fs) <==> LastAt(fs, t).Some?
    ensures LastAt(fs, t).Some? ==> exists i :: 0 <= i < |fs| && fs[i] == (LastAt(fs, t).value, t)
    decreases |fs|
  {
    if fs != [] {
      var init := fs[..|fs| - 1];
      LastAtIsFrame(init, t);
      assert forall i :: 0 <= i < |init| ==> Times(init)[i] == Times(fs)[i];
      if t in Times(fs) && fs[|fs| - 1].1 != t {
        var i :| 0 <= i < |fs| && Times(fs)[i] == t;
        assert Times(init)[i] == t;
      }
      if LastAt(fs, t).Some? && fs[|fs| - 1].1 != t {
        var i :| 0 <= i < |init| && init[i] == (LastAt(init, t).value, t);
        assert fs[i] == init[i];
      }
    }
  }

  /** The screen steps of `build_replay_steps_for_screen` are keyed by the screen frames:
      each comes from a replay step of the frame times, carries the screen origin and the
      last frame's uuid at its start, and starts with no context keys; when every frame
      uuid parses, there is one per replay step, in order. */
  lemma ScreenStepsProperties(frames: seq<ScreenFrame>, origin: DataOrigin, windowEnd: Instant)
    ensures var steps := Replay.ReplaySteps(Times(frames), windowEnd);
      var out := ScreenSteps(frames, origin, windowEnd);
      |out| <= |steps| &&
      (forall k :: 0 <= k < |out| ==> RefStepOf(out[k], steps, frames, origin)) &&
      ((forall i :: 0 <= i < |frames| ==> Parse(frames[i].0).Some?) ==>
         |out| == |steps| &&
         forall k :: 0 <= k < |out| ==> out[k].start == steps[k].start && out[k].end == steps[k].end)
  {
    var steps := Replay.ReplaySteps(Times(frames), windowEnd);
    ScreenStepsReference(frames, origin, windowEnd);
    RefStepsSound(steps, frames, origin);
    if forall i :: 0 <= i < |frames| ==> Parse(frames[i].0).Some? {
      Replay.ReplayStepsWellFormed(Times(frames), windowEnd);
      RefStepsNoDrop(steps, frames, origin);
    }
  }

  // ---------------------------------------------------------------------------------
  // assign_context_keys

  /** The `sort_by_key` order on context records: by start, then uuid (byte order), then
      table name (code point order). */
  predicate RecordLe(a: IntervalKey, b: IntervalKey) {
    a.start < b.start ||
    (a.start == b.start &&
     ((a.key.uuid != b.key.uuid && LexLe(a.key.uuid, b.key.uuid)) ||
      (a.key.uuid == b.key.uuid &&
       LexLe(Codes(TableName(a.key.origin)), Codes(TableName(b.key.origin))))))
  }

  lemma RecordLeTotalPreorder()
    ensures TotalPreorder(RecordLe)
  {
    forall a: IntervalKey, b: IntervalKey ensures RecordLe(a, b) || RecordLe(b, a) {
      LexLeTotal(a.key.uuid, b.key.uuid);
      LexLeTotal(Codes(TableName(a.key.origin)), Codes(TableName(b.key.origin)));
    }
    forall a: IntervalKey, b: IntervalKey, c: IntervalKey | RecordLe(a, b) && RecordLe(b, c)
      ensures RecordLe(a, c)
    {
      if a.start == b.start == c.start {
        var ua, ub, uc := a.key.uuid, b.key.uuid, c.key.uuid;
        if ua == ub && ub == uc {
          LexLeTransitive(Codes(TableName(a.key.origin)), Codes(TableName(b.key.origin)),
                          Codes(TableName(c.key.origin)));
        } else if ua != ub && ub != uc {
          LexLeTransitive(ua, ub, uc);
          if ua == uc {
            LexLeAntisymmetric(ua, ub);
          }
        }
      }
    }
  }

  /** `[r.start, r.end]` meets the closed span `[s0, s1]`. */
  predicate Meets(r: IntervalKey, s0: Instant, s1: Instant) {
    r.start <= s1 && r.end >= s0
  }

  function MeetsSpan(s0: Instant, s1: Instant): (p: IntervalKey -> bool)
    ensures forall r :: p(r) == Meets(r, s0, s1)
  {
    r => Meets(r, s0, s1)
  }

  function KeysOf(rs: seq<IntervalKey>): (ks: seq<FrameKey>)
    ensures |ks| == |rs|
    ensures forall i :: 0 <= i < |rs| ==> ks[i] == rs[i].key
  {
    seq(|rs|, i requires 0 <= i < |rs| => rs[i].key)
  }

  /** The `idx` loop: skip records that end before `s0`. */
  function Skip(recs: seq<IntervalKey>, idx: nat, s0: Instant): (i: nat)
    requires idx <= |recs|
    ensures idx <= i <= |recs|
    decreases |recs| - idx
  {
    if idx < |recs| && recs[idx].end < s0 then Skip(recs, idx + 1, s0) else idx
  }

  /** The `j` loop: from record `j`, while records start no later than `s1`, append the
      keys of those meeting `[s0, s1]` until `max` keys are held. */
  function Collect(recs: seq<IntervalKey>, j: nat, s0: Instant, s1: Instant, keys: seq<FrameKey>, max: nat): seq<FrameKey>
    requires j <= |recs|
    decreases |recs| - j
  {
    if j < |recs| && recs[j].start <= s1 then
      if Meets(recs[j], s0, s1) then
        var more := keys + [recs[j].key];
        if |more| >= max then more else Collect(recs, j + 1, s0, s1, more, max)
      else Collect(recs, j + 1, s0, s1, keys, max)
    else keys
  }

  /** The `for step in steps` loop over sorted records, from record index `idx`. */
  function AssignFrom(steps: seq<StepInternal>, recs: seq<IntervalKey>, idx: nat, pad: Span, max: nat): seq<StepInternal>
    requires idx <= |recs|
    decreases |steps|
  {
    if steps == [] then []
    else
      var i := NextIdx(steps[0], recs, idx, pad, max);
      [Filled(steps[0], recs, i, pad, max)] + AssignFrom(steps[1..], recs, i, pad, max)
  }

  /** Where the record index stands after a step: unmoved past a full step. */
  function NextIdx(st: StepInternal, recs: seq<IntervalKey>, idx: nat, pad: Span, max: nat): (i: nat)
    requires idx <= |recs|
    ensures idx <= i <= |recs|
  {
    if |st.contextKeys| >= max then idx else Skip(recs, idx, st.start - pad)
  }

  /** A step after its turn: a full step unchanged, otherwise its keys collected from `i`. */
  function Filled(st: StepInternal, recs: seq<IntervalKey>, i: nat, pad: Span, max: nat): StepInternal
    requires i <= |recs|
  {
    if |st.contextKeys| >= max then st
    else st.(contextKeys := Collect(recs, i, st.start - pad, st.end + pad, st.contextKeys, max))
  }

  /** The steps after `assign_context_keys(steps, records, pad, max)`. */
  function Assign(steps: seq<StepInternal>, records: seq<IntervalKey>, pad: Span, max: nat): seq<StepInternal> {
    if steps == [] || records == [] || max == 0 then steps
    else AssignFrom(steps, Sort(records, RecordLe), 0, pad, max)
  }

  /** `assign_context_keys`: fills each step's context keys in place. */
  method AssignContextKeys(steps: array<StepInternal>, records: seq<IntervalKey>, pad: Span, maxPerStep: nat)
    modifies steps
    ensures steps[..] == Assign(old(steps[..]), records, pad, maxPerStep)
  {
    if steps.Length == 0 || |records| == 0 || maxPerStep == 0 {
      return;
    }
    var recs := Sort(records, RecordLe);
    ghost var orig := steps[..];
    var idx: nat := 0;
    var k := 0;
    SweepStart(orig, recs, pad, maxPerStep);
    while k < steps.Length
      invariant 0 <= k <= steps.Length && idx <= |recs|
      invariant SweptTo(orig, steps[..], k, recs, idx, pad, maxPerStep)
    {
      ghost var cur := steps[..];
      ghost var idx0 := idx;
      var next;
      idx, next := StepTurn(recs, idx, steps[k], pad, maxPerStep);
      steps[k] := next;
      assert steps[..] == cur[k := next];
      SweepStep(orig, cur, k, recs, idx0, idx, next, pad, maxPerStep);
      k := k + 1;
    }
    SweepDone(orig, steps[..], records, recs, idx, pad, maxPerStep);
  }

  lemma SweepStart(orig: seq<StepInternal>, recs: seq<IntervalKey>, pad: Span, max: nat)
    ensures SweptTo(orig, orig, 0, recs, 0, pad, max)
  {
    assert orig[0..] == orig && orig[..0] == [];
  }

  lemma SweepDone(orig: seq<StepInternal>, cur: seq<StepInternal>, records: seq<IntervalKey>, recs: seq<IntervalKey>,
                  idx: nat, pad: Span, max: nat)
    requires SweptTo(orig, cur, |orig|, recs, idx, pad, max)
    requires orig != [] && records != [] && max != 0 && recs == Sort(records, RecordLe)
    ensures cur == Assign(orig, records, pad, max)
  {
    assert orig[|orig|..] == [] && cur[..|orig|] == cur;
  }

  /** The sweep's state after `k` steps: those steps are done, the rest untouched. */
  ghost predicate SweptTo(orig: seq<StepInternal>, cur: seq<StepInternal>, k: nat, recs: seq<IntervalKey>, idx: nat, pad: Span, max: nat) {
    idx <= |recs| && k <= |orig| == |cur| && cur[k..] == orig[k..] &&
    AssignFrom(orig, recs, 0, pad, max) == cur[..k] + AssignFrom(orig[k..], recs, idx, pad, max)
  }

  /** One turn of the step loop keeps `SweptTo`: step `k` becomes `next` and the record
      index moves to `i`, as `AssignFrom` prescribes. */
  lemma SweepStep(orig: seq<StepInternal>, cur: seq<StepInternal>, k: nat, recs: seq<IntervalKey>,
                  idx: nat, i: nat, next: StepInternal, pad: Span, max: nat)
    requires k < |orig| && SweptTo(orig, cur, k, recs, idx, pad, max)
    requires i == NextIdx(cur[k], recs, idx, pad, max) && next == Filled(cur[k], recs, i, pad, max)
    ensures SweptTo(orig, cur[k := next], k + 1, recs, i, pad, max)
  {
    assert cur[k] == orig[k..][0];
    assert orig[k..][1..] == orig[k + 1..];
    var after := cur[k := next];
    assert after[..k + 1] == cur[..k] + [next];
    assert after[k + 1..] == cur[k + 1..];
    assert cur[k + 1..] == cur[k..][1..];
  }

  /** One turn of the step loop: a full step is passed over, any other is filled. */
  method StepTurn(recs: seq<IntervalKey>, idx0: nat, step: StepInternal, pad: Span, maxPerStep: nat)
    returns (idx: nat, next: StepInternal)
    requires idx0 <= |recs|
    ensures idx == NextIdx(step, recs, idx0, pad, maxPerStep) && next == Filled(step, recs, idx, pad, maxPerStep)
  {
    if |step.contextKeys| >= maxPerStep {
      return idx0, step;
    }
    var keys;
    idx, keys := FillStep(recs, idx0, step, pad, maxPerStep);
    next := step.(contextKeys := keys);
  }

  /** The body of the step loop for a step with room: advance `idx` past the records
      ending before the padded span, then collect from there. */
  method FillStep(recs: seq<IntervalKey>, idx0: nat, step: StepInternal, pad: Span, maxPerStep: nat)
    returns (idx: nat, keys: seq<FrameKey>)
    requires idx0 <= |recs| && |step.contextKeys| < maxPerStep
    ensures idx == Skip(recs, idx0, step.start - pad)
    ensures keys == Collect(recs, idx, step.start - pad, step.end + pad, step.contextKeys, maxPerStep)
  {
    var s0 := step.start - pad;
    var s1 := step.end + pad;
    idx := idx0;
    while idx < |recs| && recs[idx].end < s0
      invariant idx0 <= idx <= |recs|
      invariant Skip(recs, idx0, s0) == Skip(recs, idx, s0)
    {
      idx := idx + 1;
    }
    keys := step.contextKeys;
    var j := idx;
    while j < |recs| && recs[j].start <= s1
      invariant idx <= j <= |recs|
      invariant |keys| < maxPerStep
      invariant Collect(recs, idx, s0, s1, step.contextKeys, maxPerStep) ==
                Collect(recs, j, s0, s1, keys, maxPerStep)
    {
      var r := recs[j];
      if r.start <= s1 && r.end >= s0 {
        ghost var before := keys;
        keys := keys + [r.key];
        if |keys| >= maxPerStep {
          assert Collect(recs, j, s0, s1, before, maxPerStep) == keys;
          return;
        }
      }
      j := j + 1;
    }
  }

  /** Nothing changes when there are no steps, no records or no room for keys. */
  lemma AssignNoOp(steps: seq<StepInternal>, records: seq<IntervalKey>, pad: Span, max: nat)
    requires steps == [] || records == [] || max == 0
    ensures Assign(steps, records, pad, max) == steps
  {
  }

  /** What the sweep may do to one step: keep its span and screen key, keep its existing
      context keys as a prefix, leave a full step alone, stay within `max`, and only add
      keys of records meeting the padded span. */
  predicate StepUpdated(before: StepInternal, after: StepInternal, recs: seq<IntervalKey>, pad: Span, max: nat) {
    Kept(before, after, max) && AddedFrom(before, after, recs, pad)
  }

  predicate Kept(before: StepInternal, after: StepInternal, max: nat) {
    after.start == before.start && after.end == before.end && after.screenKey == before.screenKey &&
    (|before.contextKeys| >= max ==> after == before) &&
    (|before.contextKeys| < max ==> |after.contextKeys| <= max) &&
    |before.contextKeys| <= |after.contextKeys| &&
    after.contextKeys[..|before.contextKeys|] == before.contextKeys
  }

  predicate AddedFrom(before: StepInternal, after: StepInternal, recs: seq<IntervalKey>, pad: Span) {
    forall i :: |before.contextKeys| <= i < |after.contextKeys| ==>
      after.contextKeys[i] in MeetingKeys(recs, before.start - pad, before.end + pad)
  }

  /** The keys of the records meeting `[s0, s1]`. */
  function MeetingKeys(recs: seq<IntervalKey>, s0: Instant, s1: Instant): set<FrameKey> {
    set r | r in recs && Meets(r, s0, s1) :: r.key
  }

  lemma MeetingKeysOfPermutation(recs: seq<IntervalKey>, records: seq<IntervalKey>, s0: Instant, s1: Instant)
    requires multiset(recs) == multiset(records)
    ensures MeetingKeys(recs, s0, s1) == MeetingKeys(records, s0, s1)
  {
    forall r ensures r in recs <==> r in records {
      assert r in recs <==> r in multiset(recs);
      assert r in records <==> r in multiset(records);
    }
  }

  lemma {:induction false} CollectSound(recs: seq<IntervalKey>, j: nat, s0: Instant, s1: Instant, keys: seq<FrameKey>, max: nat)
    requires j <= |recs| && |keys| < max
    ensures var out := Collect(recs, j, s0, s1, keys, max);
      |keys| <= |out| <= max && out[..|keys|] == keys &&
      forall i :: |keys| <= i < |out| ==> out[i] in MeetingKeys(recs, s0, s1)
    decreases |recs| - j
  {
    if j < |recs| && recs[j].start <= s1 {
      if Meets(recs[j], s0, s1) {
        var more := keys + [recs[j].key];
        if |more| < max {
          CollectSound(recs, j + 1, s0, s1, more, max);
          var out := Collect(recs, j + 1, s0, s1, more, max);
          assert out[..|more|] == more;
          assert out[..|keys|] == more[..|keys|];
          assert recs[j] in recs;
          assert out[|keys|] == more[|keys|];
        } else {
          assert recs[j] in recs;
        }
      } else {
        CollectSound(recs, j + 1, s0, s1, keys, max);
      }
    }
  }

  lemma {:induction false} AssignFromSound(steps: seq<StepInternal>, recs: seq<IntervalKey>, idx: nat, pad: Span, max: nat)
    requires idx <= |recs|
    ensures var out := AssignFrom(steps, recs, idx, pad, max);
      |out| == |steps| && forall k :: 0 <= k < |steps| ==> StepUpdated(steps[k], out[k], recs, pad, max)
    decreases |steps|
  {
    if steps != [] {
      var st := steps[0];
      var out := AssignFrom(steps, recs, idx, pad, max);
      var i := NextIdx(st, recs, idx, pad, max);
      if |st.contextKeys| < max {
        CollectSound(recs, i, st.start - pad, st.end + pad, st.contextKeys, max);
      }
      AssignFromSound(steps[1..], recs, i, pad, max);
      forall k | 0 < k < |steps| ensures StepUpdated(steps[k], out[k], recs, pad, max) {
        assert steps[k] == steps[1..][k - 1];
      }
    }
  }

  /** `assign_context_keys` keeps every step's span and screen key and its existing keys,
      skips a step already holding `max` keys, never fills a step beyond `max`, and adds
      only keys of records whose closed span meets the step's span padded by `pad` on
      both sides. */
  lemma AssignSound(steps: seq<StepInternal>, records: seq<IntervalKey>, pad: Span, max: nat)
    ensures var out := Assign(steps, records, pad, max);
      |out| == |steps| && forall k :: 0 <= k < |steps| ==> StepUpdated(steps[k], out[k], records, pad, max)
  {
    var out := Assign(steps, records, pad, max);
    if !(steps == [] || records == [] || max == 0) {
      var recs := Sort(records, RecordLe);
      AssignFromSound(steps, recs, 0, pad, max);
      forall k | 0 <= k < |steps| ensures StepUpdated(steps[k], out[k], records, pad, max) {
        assert StepUpdated(steps[k], out[k], recs, pad, max);
        MeetingKeysOfPermutation(recs, records, steps[k].start - pad, steps[k].end + pad);
      }
    } else {
      forall k | 0 <= k < |steps| ensures StepUpdated(steps[k], out[k], records, pad, max) {
        assert out[k] == steps[k];
        assert steps[k].contextKeys[..|steps[k].contextKeys|] == steps[k].contextKeys;
      }
    }
  }

  predicate StartSorted(recs: seq<IntervalKey>) {
    forall a, b :: 0 <= a < b < |recs| ==> recs[a].start <= recs[b].start
  }

  lemma {:induction false} FilterNone<T>(s: seq<T>, p: T -> bool)
    requires forall i :: 0 <= i < |s| ==> !p(s[i])
    ensures Filter(s, p) == []
  {
    if s != [] {
      assert forall i :: 0 <= i < |s[1..]| ==> s[1..][i] == s[i + 1];
      FilterNone(s[1..], p);
    }
  }

  lemma FilterFrom<T>(s: seq<T>, j: nat, p: T -> bool)
    requires j < |s|
    ensures Filter(s[j..], p) == (if p(s[j]) then [s[j]] else []) + Filter(s[j + 1..], p)
  {
    assert s[j..][0] == s[j] && s[j..][1..] == s[j + 1..];
  }

  lemma KeysOfCons(r: IntervalKey, rs: seq<IntervalKey>)
    ensures KeysOf([r] + rs) == [r.key] + KeysOf(rs)
  {
  }

  /** What the sweep collects from record `j` on, into `keys`: the keys of the records
      from `j` on that meet the span, up to `max` keys in all. */
  function Completed(recs: seq<IntervalKey>, j: nat, s0: Instant, s1: Instant, keys: seq<FrameKey>, max: nat): seq<FrameKey>
    requires j <= |recs| && |keys| < max
  {
    keys + Take(KeysOf(Filter(recs[j..], MeetsSpan(s0, s1))), max - |keys|)
  }

  lemma {:induction false} CollectComplete(recs: seq<IntervalKey>, j: nat, s0: Instant, s1: Instant, keys: seq<FrameKey>, max: nat)
    requires StartSorted(recs) && j <= |recs| && |keys| < max
    ensures Collect(recs, j, s0, s1, keys, max) == Completed(recs, j, s0, s1, keys, max)
    decreases |recs| - j
  {
    if j < |recs| && recs[j].start <= s1 {
      if Meets(recs[j], s0, s1) {
        var more := keys + [recs[j].key];
        if |more| < max {
          CollectComplete(recs, j + 1, s0, s1, more, max);
        }
        CollectMeetStep(recs, j, s0, s1, keys, max);
      } else {
        CollectComplete(recs, j + 1, s0, s1, keys, max);
        CollectPassStep(recs, j, s0, s1, keys, max);
      }
    } else {
      NoneMeetAfter(recs, j, s0, s1);
    }
  }

  /** A record that meets the span is taken, and the rest come after it. */
  lemma CollectMeetStep(recs: seq<IntervalKey>, j: nat, s0: Instant, s1: Instant, keys: seq<FrameKey>, max: nat)
    requires j < |recs| && recs[j].start <= s1 && Meets(recs[j], s0, s1) && |keys| < max
    requires |keys| + 1 < max ==>
               Collect(recs, j + 1, s0, s1, keys + [recs[j].key], max) ==
               Completed(recs, j + 1, s0, s1, keys + [recs[j].key], max)
    ensures Collect(recs, j, s0, s1, keys, max) == Completed(recs, j, s0, s1, keys, max)
  {
    var p := MeetsSpan(s0, s1);
    var rest := Filter(recs[j + 1..], p);
    FilterFrom(recs, j, p);
    KeysOfCons(recs[j], rest);
    TakeCons(recs[j].key, KeysOf(rest), max - |keys|);
  }

  /** A record that does not meet the span is passed over. */
  lemma CollectPassStep(recs: seq<IntervalKey>, j: nat, s0: Instant, s1: Instant, keys: seq<FrameKey>, max: nat)
    requires j < |recs| && recs[j].start <= s1 && !Meets(recs[j], s0, s1) && |keys| < max
    requires Collect(recs, j + 1, s0, s1, keys, max) == Completed(recs, j + 1, s0, s1, keys, max)
    ensures Collect(recs, j, s0, s1, keys, max) == Completed(recs, j, s0, s1, keys, max)
  {
    var p := MeetsSpan(s0, s1);
    FilterFrom(recs, j, p);
    assert !p(recs[j]);
    assert Filter(recs[j..], p) == Filter(recs[j + 1..], p);
    assert Collect(recs, j, s0, s1, keys, max) == Collect(recs, j + 1, s0, s1, keys, max);
  }

  /** In start order, nothing from a record starting after `s1` on meets `[s0, s1]`. */
  lemma NoneMeetAfter(recs: seq<IntervalKey>, j: nat, s0: Instant, s1: Instant)
    requires StartSorted(recs) && j <= |recs|
    requires j < |recs| ==> recs[j].start > s1
    ensures Filter(recs[j..], MeetsSpan(s0, s1)) == []
  {
    var t := recs[j..];
    forall i | 0 <= i < |t| ensures !Meets(t[i], s0, s1) {
      assert t[i] == recs[j + i];
    }
    FilterNone(t, MeetsSpan(s0, s1));
  }

  lemma SkipSkips(recs: seq<IntervalKey>, idx: nat, s0: Instant)
    requires idx <= |recs|
    ensures forall m :: idx <= m < Skip(recs, idx, s0) ==> recs[m].end < s0
    decreases |recs| - idx
  {
    if idx < |recs| && recs[idx].end < s0 {
      SkipSkips(recs, idx + 1, s0);
    }
  }

  predicate StepsStartSorted(steps: seq<StepInternal>) {
    forall a, b :: 0 <= a < b < |steps| ==> steps[a].start <= steps[b].start
  }

  /** The keys the sweep gives a step that has room: its own keys, then the keys of the
      sorted records meeting its padded span, in order, up to `max` keys in all. */
  function Expected(st: StepInternal, recs: seq<IntervalKey>, pad: Span, max: nat): seq<FrameKey>
    requires |st.contextKeys| < max
  {
    st.contextKeys + Take(KeysOf(Filter(recs, MeetsSpan(st.start - pad, st.end + pad))), max - |st.contextKeys|)
  }

  /** For one step with room, when every record before `idx` ends before its padded
      span: the sweep's keys are the expected ones, and every record before the new
      index ends before the span. */
  lemma StepComplete(st: StepInternal, recs: seq<IntervalKey>, idx: nat, pad: Span, max: nat)
    requires idx <= |recs| && StartSorted(recs) && |st.contextKeys| < max
    requires forall m :: 0 <= m < idx ==> recs[m].end < st.start - pad
    ensures var i := Skip(recs, idx, st.start - pad);
      Collect(recs, i, st.start - pad, st.end + pad, st.contextKeys, max) == Expected(st, recs, pad, max) &&
      forall m :: 0 <= m < i ==> recs[m].end < st.start - pad
  {
    var i := Skip(recs, idx, st.start - pad);
    SkippedEnd(st, recs, idx, pad);
    CollectExpected(st, recs, i, pad, max);
  }

  lemma SkippedEnd(st: StepInternal, recs: seq<IntervalKey>, idx: nat, pad: Span)
    requires idx <= |recs|
    requires forall m :: 0 <= m < idx ==> recs[m].end < st.start - pad
    ensures forall m :: 0 <= m < Skip(recs, idx, st.start - pad) ==> recs[m].end < st.start - pad
  {
    SkipSkips(recs, idx, st.start - pad);
  }

  /** From a record before which everything ends before the padded span, the sweep
      collects what the step expects. */
  lemma CollectExpected(st: StepInternal, recs: seq<IntervalKey>, i: nat, pad: Span, max: nat)
    requires i <= |recs| && StartSorted(recs) && |st.contextKeys| < max
    requires forall m :: 0 <= m < i ==> recs[m].end < st.start - pad
    ensures Collect(recs, i, st.start - pad, st.end + pad, st.contextKeys, max) == Expected(st, recs, pad, max)
  {
    var s0, s1 := st.start - pad, st.end + pad;
    CollectComplete(recs, i, s0, s1, st.contextKeys, max);
    ExpectedFrom(st, recs, pad, max, i);
    calc {
      Collect(recs, i, s0, s1, st.contextKeys, max);
      Completed(recs, i, s0, s1, st.contextKeys, max);
      Expected(st, recs, pad, max);
    }
  }

  /** Records that all end before the padded span can be left out of what a step expects. */
  lemma ExpectedFrom(st: StepInternal, recs: seq<IntervalKey>, pad: Span, max: nat, i: nat)
    requires i <= |recs| && |st.contextKeys| < max
    requires forall m :: 0 <= m < i ==> recs[m].end < st.start - pad
    ensures Completed(recs, i, st.start - pad, st.end + pad, st.contextKeys, max) == Expected(st, recs, pad, max)
  {
    FilterDropPrefix(recs, i, MeetsSpan(st.start - pad, st.end + pad));
  }

  lemma FilterDropPrefix<T>(s: seq<T>, i: nat, p: T -> bool)
    requires i <= |s| && forall m :: 0 <= m < i ==> !p(s[m])
    ensures Filter(s, p) == Filter(s[i..], p)
  {
    assert s == s[..i] + s[i..];
    FilterAppend(s[..i], s[i..], p);
    forall m | 0 <= m < |s[..i]| ensures !p(s[..i][m]) {
      assert s[..i][m] == s[m];
    }
    FilterNone(s[..i], p);
  }

  predicate AllExpected(steps: seq<StepInternal>, out: seq<StepInternal>, recs: seq<IntervalKey>, pad: Span, max: nat) {
    |out| == |steps| &&
    forall k :: 0 <= k < |steps| && |steps[k].contextKeys| < max ==>
      out[k].contextKeys == Expected(steps[k], recs, pad, max)
  }

  lemma AllExpectedCons(steps: seq<StepInternal>, o: StepInternal, tail: seq<StepInternal>, recs: seq<IntervalKey>, pad: Span, max: nat)
    requires steps != [] && AllExpected(steps[1..], tail, recs, pad, max)
    requires |steps[0].contextKeys| < max ==> o.contextKeys == Expected(steps[0], recs, pad, max)
    ensures AllExpected(steps, [o] + tail, recs, pad, max)
  {
    var ok := (st: StepInternal, x: StepInternal) =>
      |st.contextKeys| < max ==> x.contextKeys == Expected(st, recs, pad, max);
    PairwiseCons(steps, o, tail, ok);
  }

  /** A relation that holds of the first pair and of every pair after it holds of every pair. */
  lemma PairwiseCons<S, O>(steps: seq<S>, o: O, tail: seq<O>, ok: (S, O) -> bool)
    requires steps != [] && |tail| == |steps| - 1 && ok(steps[0], o)
    requires forall j :: 0 <= j < |tail| ==> ok(steps[1..][j], tail[j])
    ensures forall k :: 0 <= k < |steps| ==> ok(steps[k], ([o] + tail)[k])
  {
    forall k | 0 < k < |steps| ensures ok(steps[k], ([o] + tail)[k]) {
      assert steps[1..][k - 1] == steps[k] && ([o] + tail)[k] == tail[k - 1];
    }
  }

  lemma {:induction false} AssignFromComplete(steps: seq<StepInternal>, recs: seq<IntervalKey>, idx: nat, pad: Span, max: nat)
    requires idx <= |recs| && StartSorted(recs) && StepsStartSorted(steps)
    requires steps != [] ==> forall m :: 0 <= m < idx ==> recs[m].end < steps[0].start - pad
    ensures AllExpected(steps, AssignFrom(steps, recs, idx, pad, max), recs, pad, max)
    decreases |steps|
  {
    if steps != [] {
      var st := steps[0];
      var i := NextIdx(st, recs, idx, pad, max);
      var rest := steps[1..];
      HeadComplete(steps, recs, idx, pad, max);
      AssignFromComplete(rest, recs, i, pad, max);
      AllExpectedCons(steps, Filled(st, recs, i, pad, max), AssignFrom(rest, recs, i, pad, max), recs, pad, max);
    }
  }

  /** The first step gets what it expects, and the records skipped for it end before the
      next step's padded span too. */
  lemma HeadComplete(steps: seq<StepInternal>, recs: seq<IntervalKey>, idx: nat, pad: Span, max: nat)
    requires steps != [] && idx <= |recs| && StartSorted(recs) && StepsStartSorted(steps)
    requires forall m :: 0 <= m < idx ==> recs[m].end < steps[0].start - pad
    ensures var i := NextIdx(steps[0], recs, idx, pad, max);
      (|steps[0].contextKeys| < max ==> Filled(steps[0], recs, i, pad, max).contextKeys == Expected(steps[0], recs, pad, max)) &&
      StepsStartSorted(steps[1..]) &&
      (|steps| > 1 ==> forall m :: 0 <= m < i ==> recs[m].end < steps[1].start - pad)
  {
    var st := steps[0];
    if |st.contextKeys| < max {
      StepComplete(st, recs, idx, pad, max);
    }
    if |steps| > 1 {
      assert steps[0].start <= steps[1].start;
    }
    assert StepsStartSorted(steps[1..]) by {
      forall a, b | 0 <= a < b < |steps[1..]| ensures steps[1..][a].start <= steps[1..][b].start {
        assert steps[1..][a] == steps[a + 1] && steps[1..][b] == steps[b + 1];
      }
    }
  }

  /** When the steps come in order of their start (as replay steps do), the sweep misses
      nothing: a step with room receives, after its own keys, the keys of every record
      meeting its padded span in `(start, uuid, table name)` order, as many as fit under
      `max`. */
  lemma AssignComplete(steps: seq<StepInternal>, records: seq<IntervalKey>, pad: Span, max: nat)
    requires StepsStartSorted(steps)
    ensures var out := Assign(steps, records, pad, max);
      |out| == |steps| &&
      forall k :: 0 <= k < |steps| && |steps[k].contextKeys| < max ==>
        out[k].contextKeys == Expected(steps[k], Sort(records, RecordLe), pad, max)
  {
    var recs := Sort(records, RecordLe);
    RecordLeTotalPreorder();
    SortSorted(records, RecordLe);
    assert StartSorted(recs) by {
      forall a, b | 0 <= a < b < |recs| ensures recs[a].start <= recs[b].start {
        assert RecordLe(recs[a], recs[b]);
      }
    }
    if records == [] {
      forall k | 0 <= k < |steps| && |steps[k].contextKeys| < max
        ensures steps[k].contextKeys == Expected(steps[k], recs, pad, max)
      {
        assert Filter(recs, MeetsSpan(steps[k].start - pad, steps[k].end + pad)) == [];
      }
    } else if steps != [] && max != 0 {
      AssignFromComplete(steps, recs, 0, pad, max);
      assert AllExpected(steps, Assign(steps, records, pad, max), recs, pad, max);
    }
  }

  /** Two consecutive ten-second steps with no padding and room for ten keys: a record
      inside the first step goes to it alone, and an instant record one second into the
      second step goes to that step alone. */
  lemma AssignExample(screen: FrameKey, k0: FrameKey, k1: FrameKey)
    ensures var t0 := Seconds(1_700_000_000);
      var t1 := t0 + Seconds(10);
      var t2 := t0 + Seconds(20);
      var steps := [StepInternal(t0, t1, screen, []), StepInternal(t1, t2, screen, [])];
      var records := [IntervalKey(k0, t0 + Seconds(2), t0 + Seconds(3)),
                      IntervalKey(k1, t1 + Seconds(1), t1 + Seconds(1))];
      var out := Assign(steps, records, 0, 10);
      |out| == 2 && out[0].contextKeys == [k0] && out[1].contextKeys == [k1]
  {
    var t0 := Seconds(1_700_000_000);
    var t1 := t0 + Seconds(10);
    var t2 := t0 + Seconds(20);
    var steps := [StepInternal(t0, t1, screen, []), StepInternal(t1, t2, screen, [])];
    var r0 := IntervalKey(k0, t0 + Seconds(2), t0 + Seconds(3));
    var r1 := IntervalKey(k1, t1 + Seconds(1), t1 + Seconds(1));
    var records := [r0, r1];
    assert Sort([r1], RecordLe) == [r1];
    assert Sort(records, RecordLe) == [r0, r1];
    AssignComplete(steps, records, 0, 10);
    ExampleExpected(steps[0], r0, r1, t0, t1, k0);
    ExampleExpected(steps[1], r1, r0, t1, t2, k1);
    var out := Assign(steps, records, 0, 10);
    assert out[0].contextKeys == Expected(steps[0], [r0, r1], 0, 10);
    assert out[1].contextKeys == Expected(steps[1], [r0, r1], 0, 10);
  }

  lemma ExampleExpected(st: StepInternal, hit: IntervalKey, miss: IntervalKey, s0: Instant, s1: Instant, k: FrameKey)
    requires st.start == s0 && st.end == s1 && st.contextKeys == [] && hit.key == k
    requires Meets(hit, s0, s1) && !Meets(miss, s0, s1)
    ensures Expected(st, [hit, miss], 0, 10) == [k] && Expected(st, [miss, hit], 0, 10) == [k]
  {
    var p := MeetsSpan(s0, s1);
    assert [hit, miss][1..] == [miss] && [miss, hit][1..] == [hit];
    assert Filter([miss], p) == [] && Filter([hit], p) == [hit];
    assert Filter([hit, miss], p) == [hit] && Filter([miss, hit], p) == [hit];
  }
}
