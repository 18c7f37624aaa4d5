/** The mouse collector (collector/src/modules/mouse.rs): the `run` loop that records the
    cursor position whenever it moves, remembers a position only once it is stored, and
    reports an unavailable position once per outage. Hyprland's cursor query is a
    parameter: the position it gave, or None. */
module Mouse {
  import opened Wrappers
  import opened Time
  import opened Sorting
  import Types

  /** Hyprland reports whole pixel coordinates, which the collector widens to `f64`
      exactly, so positions are kept as integers. */
  datatype Position = Position(x: int, y: int)

  /** The frame's button field: `MouseButton::None`, or some other button's code. */
  datatype MouseButton = ButtonNone | ButtonOther(code: int)

  /** `MouseFrame`, as `run` fills it. */
  datatype MouseFrame = MouseFrame(
    uuid: string, timestamp: Option<ProtoTimestamp>, x: int, y: int, button: MouseButton,
    pressed: bool, tDevice: Option<ProtoTimestamp>, tCanonical: Option<ProtoTimestamp>,
    tEnd: Option<ProtoTimestamp>)

  /** The frame of a position seen at `now`: no button, not pressed, every time field the
      poll's instant. */
  function FrameOf(p: Position, now: Instant, uuid: string): (f: MouseFrame)
    ensures f.uuid == uuid && f.x == p.x && f.y == p.y
    ensures f.button == ButtonNone && !f.pressed
    ensures f.timestamp == Types.ToPbTs(now) && f.tDevice == f.timestamp &&
            f.tCanonical == f.timestamp && f.tEnd == f.timestamp
  {
    var ts := Types.ToPbTs(now);
    MouseFrame(uuid, ts, p.x, p.y, ButtonNone, false, ts, ts, ts)
  }

  function PositionOf(f: MouseFrame): Position {
    Position(f.x, f.y)
  }

  /** The change test of `run`: a position is new when none is remembered or either
      coordinate differs from the remembered one. */
  predicate Changed(last: Option<Position>, p: Position) {
    match last
    case None => true
    case Some(l) => l.x != p.x || l.y != p.y
  }

  /** Changed is exactly "not the remembered position". */
  lemma ChangedIsDifferent(last: Option<Position>, p: Position)
    ensures Changed(last, p) <==> last != Some(p)
  {
  }

  /** The polling period: the configured one when positive, else a quarter second. */
  function PollInterval(interval: real): (r: real)
    ensures r > 0.0
    ensures interval > 0.0 ==> r == interval
    ensures interval <= 0.0 ==> r == 0.25
  {
    if interval > 0.0 then interval else 0.25
  }

  /** The state of `run`: the last stored position, whether the outage has been reported,
      and the frames appended to the disk buffer. */
  class CursorWatcher {
    var lastPos: Option<Position>
    var warned: bool
    var stored: seq<MouseFrame>

    /** The remembered position is the last stored frame's, no frame repeats the position
        of the one before it, and every frame is a plain movement. */
    ghost predicate Valid()
      reads this
    {
      lastPos == (if stored == [] then None else Some(PositionOf(Last(stored)))) &&
      (forall k :: 0 <= k < |stored| - 1 ==> PositionOf(stored[k]) != PositionOf(stored[k + 1])) &&
      (forall k :: 0 <= k < |stored| ==> stored[k].button == ButtonNone && !stored[k].pressed)
    }

    constructor ()
      ensures Valid() && lastPos == None && !warned && stored == []
    {
      lastPos := None;
      warned := false;
      stored := [];
    }

    /** One pass of the loop. A position clears the outage flag and, when it differs from
        the remembered one, becomes a frame that is remembered only if encoding and
        appending it succeed. No position leaves the frames alone and logs the outage
        (`logged`) only if it has not been logged since the last position. */
    method Poll(pos: Option<Position>, now: Instant, uuid: string, appended: bool) returns (logged: bool)
      requires Valid()
      modifies this
      ensures Valid()
      ensures logged <==> pos.None? && !old(warned)
      ensures warned <==> pos.None?
      ensures pos.None? || !Changed(old(lastPos), pos.value) || !appended ==>
                lastPos == old(lastPos) && stored == old(stored)
      ensures pos.Some? && Changed(old(lastPos), pos.value) && appended ==>
                lastPos == pos && stored == old(stored) + [FrameOf(pos.value, now, uuid)]
    {
      logged := false;
      match pos
      case Some(p) =>
        warned := false;
        var changed := Changed(lastPos, p);
        if changed {
          var frame := FrameOf(p, now, uuid);
          if appended {
            stored := stored + [frame];
            lastPos := Some(p);
          }
        }
      case None =>
        if !warned {
          warned := true;
          logged := true;
        }
    }
  }

  /** A poll: its instant, the position read, if any, and whether the append succeeded. */
  type PollInput = (Instant, Option<Position>, bool)

  /** The remembered position and the stored frames after the polls, one `Poll` after
      another from an empty watcher. */
  function RunState(polls: seq<PollInput>, uuids: nat -> string): (Option<Position>, seq<MouseFrame>)
    decreases |polls|
  {
    if polls == [] then (None, [])
    else
      var (last, stored) := RunState(polls[..|polls| - 1], uuids);
      var (now, pos, appended) := Last(polls);
      if pos.Some? && Changed(last, pos.value) && appended then
        (pos, stored + [FrameOf(pos.value, now, uuids(|polls| - 1))])
      else (last, stored)
  }

  /** The positions of the polls that read one and stored it, in order. */
  function AppendedPositions(polls: seq<PollInput>): seq<Position>
    decreases |polls|
  {
    if polls == [] then []
    else
      var rest := AppendedPositions(polls[..|polls| - 1]);
      if Last(polls).1.Some? && Last(polls).2 then rest + [Last(polls).1.value] else rest
  }

  /** What a run stores is the positions read and appended, with repeats in a row
      collapsed: a failed append or a missing position leaves no trace, and the remembered
      position is the last one stored. */
  lemma {:induction false} RunStateDedup(polls: seq<PollInput>, uuids: nat -> string)
    ensures Map(RunState(polls, uuids).1, PositionOf) == Dedup(AppendedPositions(polls))
    ensures RunState(polls, uuids).0 ==
            (if AppendedPositions(polls) == [] then None else Some(Last(AppendedPositions(polls))))
    decreases |polls|
  {
    if polls != [] {
      RunStateDedup(polls[..|polls| - 1], uuids);
      RunStateStep(polls, uuids);
    }
  }

  lemma RunStateStep(polls: seq<PollInput>, uuids: nat -> string)
    requires polls != []
    requires var init := polls[..|polls| - 1];
             Map(RunState(init, uuids).1, PositionOf) == Dedup(AppendedPositions(init)) &&
             RunState(init, uuids).0 ==
             (if AppendedPositions(init) == [] then None else Some(Last(AppendedPositions(init))))
    ensures Map(RunState(polls, uuids).1, PositionOf) == Dedup(AppendedPositions(polls))
    ensures RunState(polls, uuids).0 ==
            (if AppendedPositions(polls) == [] then None else Some(Last(AppendedPositions(polls))))
  {
    var init := polls[..|polls| - 1];
    var (last, stored) := RunState(init, uuids);
    var (now, pos, appended) := Last(polls);
    var a := AppendedPositions(init);
    if pos.Some? && appended {
      var f := FrameOf(pos.value, now, uuids(|polls| - 1));
      assert AppendedPositions(polls) == a + [pos.value];
      assert Changed(last, pos.value) <==> !(a != [] && a[|a| - 1] == pos.value);
      MapSnoc(stored, f, PositionOf);
      DedupSnoc(a, pos.value);
    }
  }

  /** How many of the polls read a position. */
  function ReadCount(polls: seq<PollInput>): (n: nat)
    ensures n <= |polls|
  {
    if polls == [] then 0
    else ReadCount(polls[..|polls| - 1]) + (if Last(polls).1.Some? then 1 else 0)
  }

  /** A run of the loop over polls, each with its instant, the position read and whether
      the append succeeded: the frames stored are those `RunState` gives, so no stored
      frame repeats its predecessor's position and every stored position was read at some
      poll; the outage is logged at most once more than there were positions read, once
      when none ever is. */
  method Run(polls: seq<PollInput>, uuids: nat -> string)
    returns (w: CursorWatcher, warnings: nat)
    ensures fresh(w) && w.Valid()
    ensures |w.stored| <= |polls|
    ensures forall k :: 0 <= k < |w.stored| ==>
              exists i :: 0 <= i < |polls| && polls[i].1 == Some(PositionOf(w.stored[k]))
    ensures warnings <= ReadCount(polls) + 1
    ensures polls != [] && ReadCount(polls) == 0 ==> warnings == 1
    ensures (w.lastPos, w.stored) == RunState(polls, uuids)
  {
    w := new CursorWatcher();
    warnings := 0;
    var i := 0;
    while i < |polls|
      invariant 0 <= i <= |polls|
      invariant w.Valid() && |w.stored| <= i
      invariant forall k :: 0 <= k < |w.stored| ==>
                  exists j :: 0 <= j < i && polls[j].1 == Some(PositionOf(w.stored[k]))
      invariant warnings + (if w.warned then 0 else 1) <= ReadCount(polls[..i]) + 1
      invariant i > 0 && ReadCount(polls[..i]) == 0 ==> warnings == 1 && w.warned
      invariant i == 0 ==> warnings == 0 && !w.warned
      invariant (w.lastPos, w.stored) == RunState(polls[..i], uuids)
      modifies w
    {
      assert polls[..i + 1][..i] == polls[..i];
      var logged := w.Poll(polls[i].1, polls[i].0, uuids(i), polls[i].2);
      if logged {
        warnings := warnings + 1;
      }
      i := i + 1;
    }
    assert polls[..|polls|] == polls;
  }
}
