/** The shell-history collector (collector/src/modules/shell_history.rs): it reads the part
    of the history file written since the saved cursor and turns each command into an
    event, reading zsh's extended format, bash's `HISTTIMEFORMAT` comments, or plain lines.
    The file is given as its bytes or the error message of the failed read; each piece
    `read_line` returns must be well-formed UTF-8. The clock is the parameter `clock`:
    `clock(k)` is the instant the `k`-th clock read of one reading returns. */
module ShellHistory {
  import opened Wrappers
  import opened Text
  import opened Decimal
  import opened Time
  import opened Errors
  import opened Sorting
  import opened ShellLines
  import opened Bytes
  import opened Utf8
  import Types

  /** Kinds as `Classify` gives them: commands clean, comment timestamps whole seconds. */
  predicate WellKinded(kinds: seq<LineKind>) {
    forall i :: 0 <= i < |kinds| ==>
      (kinds[i].Command? ==> Clean(kinds[i].cmd)) &&
      (kinds[i].Comment? && kinds[i].stamp.Some? ==>
         InRange(kinds[i].stamp.value) && kinds[i].stamp.value % NANOS_PER_SEC == 0)
  }

  lemma ClassifiedWell(lines: seq<string>)
    ensures WellKinded(Map(lines, Classify))
  {
  }

  /** The pairing `parse_bash_histtime` does, given the lines' kinds, the timestamp of the
      last comment not yet used and the number of clock reads taken so far: a comment
      replaces the timestamp, a blank line keeps it, and a command takes it or, when there
      is none, the next clock read. */
  function BashEvents(kinds: seq<LineKind>, pending: Option<Instant>, clock: nat -> Instant, taken: nat)
    : seq<Event>
    decreases |kinds|
  {
    if kinds == [] then []
    else
      match kinds[0]
      case Comment(stamp) => BashEvents(kinds[1..], stamp, clock, taken)
      case Blank => BashEvents(kinds[1..], pending, clock, taken)
      case Command(cmd) =>
        match pending
        case Some(t) => [(t, cmd)] + BashEvents(kinds[1..], None, clock, taken)
        case None => [(clock(taken), cmd)] + BashEvents(kinds[1..], None, clock, taken + 1)
  }

  /** What `parse_bash_histtime` returns for `lines`. */
  function BashHistory(lines: seq<string>, clock: nat -> Instant): seq<Event> {
    BashEvents(Map(lines, Classify), None, clock, 0)
  }

  lemma MapCons<T, U>(s: seq<T>, f: T -> U)
    requires s != []
    ensures Map(s, f) == [f(s[0])] + Map(s[1..], f)
  {
  }

  /** `parse_bash_histtime`; `Utc::now` is called once for each command without a
      timestamp. */
  method ParseBashHistTime(lines: seq<string>, clock: nat -> Instant) returns (out: seq<Event>)
    ensures out == BashHistory(lines, clock)
  {
    out := [];
    var pending: Option<Instant> := None;
    var taken := 0;
    var rest := lines;
    while rest != []
      invariant out + BashEvents(Map(rest, Classify), pending, clock, taken) == BashHistory(lines, clock)
      decreases |rest|
    {
      var kind := Classify(rest[0]);
      ghost var tail := Map(rest[1..], Classify);
      MapCons(rest, Classify);
      assert ([kind] + tail)[0] == kind && ([kind] + tail)[1..] == tail;
      match kind {
        case Comment(stamp) =>
          pending := stamp;
        case Blank =>
        case Command(cmd) =>
          var ts;
          if pending.Some? {
            ts := pending.value;
          } else {
            ts := clock(taken);
            taken := taken + 1;
          }
          out := out + [(ts, cmd)];
          pending := None;
      }
      rest := rest[1..];
    }
  }

  /** The commands among the kinds, in order. */
  function Commands(kinds: seq<LineKind>): (cs: seq<string>)
    ensures WellKinded(kinds) ==> forall k :: 0 <= k < |cs| ==> Clean(cs[k])
    decreases |kinds|
  {
    if kinds == [] then []
    else
      var tail := Commands(kinds[1..]);
      assert WellKinded(kinds) ==> WellKinded(kinds[1..]) by {
        if WellKinded(kinds) {
          forall i | 0 <= i < |kinds| - 1 ensures kinds[1..][i] == kinds[i + 1] { }
        }
      }
      match kinds[0]
      case Command(c) => [c] + tail
      case _ => tail
  }

  /** For each command among the kinds, in order, the comment timestamp it takes; None
      when it has none. */
  function Stamps(kinds: seq<LineKind>, pending: Option<Instant>): (st: seq<Option<Instant>>)
    ensures |st| == |Commands(kinds)|
    decreases |kinds|
  {
    if kinds == [] then []
    else
      match kinds[0]
      case Comment(stamp) => Stamps(kinds[1..], stamp)
      case Blank => Stamps(kinds[1..], pending)
      case Command(_) => [pending] + Stamps(kinds[1..], None)
  }

  /** How many of the stamps are missing. */
  function Undated(st: seq<Option<Instant>>): nat
    decreases |st|
  {
    if st == [] then 0 else (if st[0].None? then 1 else 0) + Undated(st[1..])
  }

  /** The events' commands are `cs`, in order. */
  predicate Paired(ev: seq<Event>, cs: seq<string>) {
    |ev| == |cs| && forall k :: 0 <= k < |ev| ==> ev[k].1 == cs[k]
  }

  /** Each event takes its stamp when it has one and otherwise the clock read after the
      `taken` ones and those of the undated events before it. */
  predicate StampedInTurn(ev: seq<Event>, st: seq<Option<Instant>>, clock: nat -> Instant, taken: nat) {
    |ev| == |st| &&
    forall k :: 0 <= k < |ev| ==>
      ev[k].0 == (if st[k].Some? then st[k].value else clock(taken + Undated(st[..k])))
  }

  /** Every stamp there is is a whole second in range. */
  predicate WholeSeconds(st: seq<Option<Instant>>) {
    forall k :: 0 <= k < |st| && st[k].Some? ==> InRange(st[k].value) && st[k].value % NANOS_PER_SEC == 0
  }

  lemma UndatedCons(x: Option<Instant>, t: seq<Option<Instant>>, k: nat)
    requires 1 <= k <= |t| + 1
    ensures Undated(([x] + t)[..k]) == (if x.None? then 1 else 0) + Undated(t[..k - 1])
  {
    assert ([x] + t)[..k][1..] == t[..k - 1];
  }

  /** One more command in front: it takes its stamp, or the read numbered `taken`, and
      the rest move one read on when it took the clock. */
  lemma StampedCons(e: Event, ev: seq<Event>, x: Option<Instant>, st: seq<Option<Instant>>,
                    clock: nat -> Instant, taken: nat)
    requires StampedInTurn(ev, st, clock, if x.Some? then taken else taken + 1)
    requires e.0 == (if x.Some? then x.value else clock(taken))
    ensures StampedInTurn([e] + ev, [x] + st, clock, taken)
  {
    var ev', st' := [e] + ev, [x] + st;
    forall k | 0 <= k < |ev'|
      ensures ev'[k].0 == (if st'[k].Some? then st'[k].value else clock(taken + Undated(st'[..k])))
    {
      if k == 0 {
        assert st'[..0] == [];
      } else {
        UndatedCons(x, st, k);
        assert ev'[k] == ev[k - 1] && st'[k] == st[k - 1];
      }
    }
  }

  lemma PairedCons(e: Event, ev: seq<Event>, c: string, cs: seq<string>)
    requires Paired(ev, cs) && e.1 == c
    ensures Paired([e] + ev, [c] + cs)
  {
  }

  lemma WholeSecondsCons(x: Option<Instant>, st: seq<Option<Instant>>)
    requires WholeSeconds(st)
    requires x.Some? ==> InRange(x.value) && x.value % NANOS_PER_SEC == 0
    ensures WholeSeconds([x] + st)
  {
    assert forall k :: 1 <= k <= |st| ==> ([x] + st)[k] == st[k - 1];
  }

  /** The bash reading keeps exactly the commands, in order. A command with a comment
      before it takes the comment's timestamp, a whole second in range; every other one
      takes its own clock read, the next after those taken by the commands before it. */
  lemma {:induction false} BashEventsSpec(kinds: seq<LineKind>, pending: Option<Instant>,
                                          clock: nat -> Instant, taken: nat)
    requires WellKinded(kinds)
    requires pending.Some? ==> InRange(pending.value) && pending.value % NANOS_PER_SEC == 0
    ensures var ev := BashEvents(kinds, pending, clock, taken);
            var st := Stamps(kinds, pending);
            Paired(ev, Commands(kinds)) && StampedInTurn(ev, st, clock, taken) && WholeSeconds(st)
    decreases |kinds|
  {
    if kinds == [] {
    } else {
      var tail := kinds[1..];
      assert WellKinded(tail) by {
        forall i | 0 <= i < |tail| ensures tail[i] == kinds[i + 1] { }
      }
      assert kinds[0] == kinds[0];
      match kinds[0]
      case Comment(stamp) => BashEventsSpec(tail, stamp, clock, taken);
      case Blank => BashEventsSpec(tail, pending, clock, taken);
      case Command(c) =>
        var next := if pending.Some? then taken else taken + 1;
        BashEventsSpec(tail, None, clock, next);
        var ev, st := BashEvents(tail, None, clock, next), Stamps(tail, None);
        var e := (if pending.Some? then pending.value else clock(taken), c);
        assert BashEvents(kinds, pending, clock, taken) == [e] + ev;
        assert Stamps(kinds, pending) == [pending] + st;
        assert Commands(kinds) == [c] + Commands(tail);
        StampedCons(e, ev, pending, st, clock, taken);
        PairedCons(e, ev, c, Commands(tail));
        WholeSecondsCons(pending, st);
    }
  }

  lemma MapThree<T, U>(x0: T, x1: T, x2: T, f: T -> U)
    ensures Map([x0, x1, x2], f) == [f(x0), f(x1), f(x2)]
  {
  }

  lemma PairThree(stamp: Instant, c1: string, c2: string, clock: nat -> Instant)
    ensures BashEvents([Comment(Some(stamp)), Command(c1), Command(c2)], None, clock, 0) ==
            [(stamp, c1), (clock(0), c2)]
  {
    var k2 := [Command(c2)];
    var k1 := [Command(c1)] + k2;
    var k0 := [Comment(Some(stamp))] + k1;
    assert k2[1..] == [] && k1[1..] == k2 && k0[1..] == k1;
    assert BashEvents(k2, None, clock, 0) == [(clock(0), c2)];
    assert BashEvents(k1, Some(stamp), clock, 0) == [(stamp, c1), (clock(0), c2)];
    assert k0 == [Comment(Some(stamp)), Command(c1), Command(c2)];
  }

  /** A comment's timestamp goes to the command after it; the next command, with no
      comment before it, is stamped with the first clock read. */
  lemma BashPairing(t: int, c1: string, c2: string, clock: nat -> Instant)
    requires MIN_SECS <= t <= MAX_SECS
    requires Clean(c1) && Clean(c2) && c1[0] != '#' && c2[0] != '#'
    ensures BashHistory(["# " + IntToString(t) + "\n", c1 + "\n", c2 + "\n"], clock) ==
            [(Seconds(t), c1), (clock(0), c2)]
  {
    CommentLineOf(t);
    CommandLineOf(c1);
    CommandLineOf(c2);
    MapThree("# " + IntToString(t) + "\n", c1 + "\n", c2 + "\n", Classify);
    PairThree(Seconds(t), c1, c2, clock);
  }

  /** The line feed byte `read_line` stops after. */
  const LF: byte := 0x0A

  /** The message of the error `read_line` returns for a piece that is not UTF-8. */
  const InvalidUtf8 := "stream did not contain valid UTF-8"

  /** The pieces `read_line` takes off the file one after another, as bytes: each ends at a
      line feed, which it keeps, except a last piece with none. */
  function Lines(s: Bytes): (ls: seq<Bytes>)
    ensures forall k :: 0 <= k < |ls| ==> ls[k] != []
    decreases |s|
  {
    if s == [] then []
    else
      match IndexOf(s, LF)
      case None => [s]
      case Some(i) => [s[..i + 1]] + Lines(s[i + 1..])
  }

  lemma LinesStep(s: Bytes, i: nat)
    requires IndexOf(s, LF) == Some(i)
    ensures Lines(s) == [s[..i + 1]] + Lines(s[i + 1..])
  {
  }

  lemma LinesLast(s: Bytes)
    requires s != [] && IndexOf(s, LF).None?
    ensures Lines(s) == [s]
  {
  }

  /** The pieces put back together are the bytes read. */
  lemma {:induction false} LinesFlatten(s: Bytes)
    ensures Flatten(Lines(s)) == s
    decreases |s|
  {
    if s != [] {
      var j := IndexOf(s, LF);
      if j.None? {
        LinesLast(s);
        FlattenOne(s);
      } else {
        var i := j.value;
        LinesFlatten(s[i + 1..]);
        LinesStep(s, i);
        LinesFlattenStep(s, i, Lines(s), Lines(s[i + 1..]));
      }
    }
  }

  lemma FlattenOne<T>(s: seq<T>)
    ensures Flatten([s]) == s
  {
    FlattenCons(s, []);
    assert [s] + [] == [s];
  }

  lemma LinesFlattenStep(s: Bytes, i: nat, ls: seq<Bytes>, rest: seq<Bytes>)
    requires i < |s| && ls == [s[..i + 1]] + rest && Flatten(rest) == s[i + 1..]
    ensures Flatten(ls) == s
  {
    FlattenConsOf(ls, s[..i + 1], rest, s[i + 1..]);
    assert s[..i + 1] + s[i + 1..] == s;
  }

  lemma FlattenConsOf<T>(ss: seq<seq<T>>, a: seq<T>, rest: seq<seq<T>>, t: seq<T>)
    requires ss == [a] + rest && Flatten(rest) == t
    ensures Flatten(ss) == a + t
  {
    FlattenCons(a, rest);
  }

  /** Every piece but the last ends with its only line feed; the last may have none. */
  predicate PieceShape(ls: seq<Bytes>) {
    (forall k :: 0 <= k < |ls| ==> ls[k] != [] && LF !in ls[k][..|ls[k]| - 1]) &&
    (forall k :: 0 <= k < |ls| - 1 ==> ls[k] != [] && ls[k][|ls[k]| - 1] == LF)
  }

  lemma PieceShapeCons(a: Bytes, ls: seq<Bytes>)
    requires a != [] && LF !in a[..|a| - 1] && a[|a| - 1] == LF && PieceShape(ls)
    ensures PieceShape([a] + ls)
  {
    var r := [a] + ls;
    forall k | 1 <= k < |r| ensures r[k] == ls[k - 1] { }
  }

  lemma {:induction false} LinesShape(s: Bytes)
    ensures forall k :: 0 <= k < |Lines(s)| ==> LF !in Lines(s)[k][..|Lines(s)[k]| - 1]
    ensures forall k :: 0 <= k < |Lines(s)| - 1 ==> Lines(s)[k][|Lines(s)[k]| - 1] == LF
  {
    LinesPieceShape(s);
  }

  lemma {:induction false} LinesPieceShape(s: Bytes)
    ensures PieceShape(Lines(s))
    decreases |s|
  {
    if s != [] {
      var j := IndexOf(s, LF);
      if j.None? {
        LinesLast(s);
        assert PieceShape([s]);
      } else {
        var i := j.value;
        var a, b := s[..i + 1], s[i + 1..];
        LinesStep(s, i);
        LinesPieceShape(b);
        assert a[..i] == s[..i];
        PieceShapeCons(a, Lines(b));
      }
    }
  }

  /** The pieces decoded one after another; the first that is not UTF-8 stops the reading
      with an I/O error. */
  function DecodePieces(pieces: seq<Bytes>): (r: Result<seq<string>, LifelogError>)
    ensures r.Ok? ==> |r.value| == |pieces|
    ensures r.Err? ==> r.error == Io(InvalidUtf8)
    decreases |pieces|
  {
    if pieces == [] then Ok([])
    else
      match Decode(pieces[0])
      case None => Err(Io(InvalidUtf8))
      case Some(t) =>
        var ts :- DecodePieces(pieces[1..]);
        Ok([t] + ts)
  }

  /** What the `read_line` loop collects from the bytes after the cursor. */
  function ReadText(s: Bytes): Result<seq<string>, LifelogError> {
    DecodePieces(Lines(s))
  }

  /** The lines are read exactly when the bytes are well-formed UTF-8, and then they put
      back together are the text the bytes encode; otherwise the read is the I/O error. */
  lemma {:induction false} ReadTextSpec(s: Bytes)
    ensures ReadText(s).Ok? <==> Decode(s).Some?
    ensures ReadText(s).Ok? ==> Flatten(ReadText(s).value) == Decode(s).value
    ensures ReadText(s).Err? ==> ReadText(s) == Err(Io(InvalidUtf8))
    decreases |s|
  {
    if s != [] {
      var j := IndexOf(s, LF);
      if j.None? {
        LinesLast(s);
        assert [s][0] == s && [s][1..] == [];
        if Decode(s).Some? {
          assert DecodePieces([s][1..]) == Ok([]);
          assert DecodePieces([s]) == Ok([Decode(s).value] + []);
          FlattenOne(Decode(s).value);
        }
      } else {
        var i := j.value;
        var a, b := s[..i + 1], s[i + 1..];
        LinesStep(s, i);
        ReadTextSpec(b);
        assert a + b == s;
        ReadTextStep(a, b, Lines(s));
      }
    }
  }

  lemma ReadTextStep(a: Bytes, b: Bytes, pieces: seq<Bytes>)
    requires a != [] && a[|a| - 1] == LF && pieces == [a] + Lines(b)
    requires ReadText(b).Ok? <==> Decode(b).Some?
    requires ReadText(b).Ok? ==> Flatten(ReadText(b).value) == Decode(b).value
    ensures DecodePieces(pieces).Ok? <==> Decode(a + b).Some?
    ensures DecodePieces(pieces).Ok? ==> Flatten(DecodePieces(pieces).value) == Decode(a + b).value
  {
    assert pieces[0] == a && pieces[1..] == Lines(b);
    if Decode(a + b).Some? {
      DecodeSplit(a, b);
    }
    if Decode(a).Some? && Decode(b).Some? {
      DecodeAppend(a, b);
      FlattenCons(Decode(a).value, ReadText(b).value);
    }
  }

  /** The `read_line` loop: each piece up to and including a line feed, decoded. */
  method ReadLines(s: Bytes) returns (r: Result<seq<string>, LifelogError>)
    ensures r == ReadText(s)
  {
    var lines: seq<string> := [];
    var rest := s;
    assert ReadText(s).Ok? ==> lines + ReadText(s).value == ReadText(s).value;
    while rest != []
      invariant ReadText(s) == (match ReadText(rest) case Ok(ts) => Ok(lines + ts) case Err(e) => Err(e))
      decreases |rest|
    {
      var piece := NextLine(rest);
      var next := rest[|piece|..];
      ReadTextCons(rest, piece, next);
      match Decode(piece) {
        case None =>
          return Err(Io(InvalidUtf8));
        case Some(t) =>
          ConcatAssoc(lines, [t], ReadText(next));
          lines := lines + [t];
      }
      rest := next;
    }
    assert ReadText([]) == Ok([]) && lines + [] == lines;
    return Ok(lines);
  }

  /** What one `read_line` call takes: up to and including the first line feed, or all
      that is left when there is none. */
  function NextLine(s: Bytes): (piece: Bytes)
    requires s != []
    ensures 0 < |piece| <= |s| && Lines(s) == [piece] + Lines(s[|piece|..])
  {
    match IndexOf(s, LF)
    case None => LinesLast(s); s
    case Some(i) => LinesStep(s, i); s[..i + 1]
  }

  /** Reading text that starts with a piece: the piece's characters, then the rest's. */
  lemma ReadTextCons(rest: Bytes, piece: Bytes, next: Bytes)
    requires Lines(rest) == [piece] + Lines(next)
    ensures ReadText(rest) == match Decode(piece)
                              case None => Err(Io(InvalidUtf8))
                              case Some(t) => (match ReadText(next) case Ok(ts) => Ok([t] + ts) case Err(e) => Err(e))
  {
    assert ([piece] + Lines(next))[1..] == Lines(next);
  }

  lemma ConcatAssoc(lines: seq<string>, t: seq<string>, r: Result<seq<string>, LifelogError>)
    ensures r.Ok? ==> lines + (t + r.value) == (lines + t) + r.value
  {
  }

  /** The events of the lines that parse in zsh's extended format, in order. */
  function ZshEvents(lines: seq<string>): (ev: seq<Event>)
    ensures |ev| <= |lines|
    ensures forall k :: 0 <= k < |ev| ==> Stamped(ev[k])
  {
    forall x | ParseZshExtended(x).Some? ensures Stamped(ParseZshExtended(x).value) {
      ZshAccepted(x);
    }
    FilterMapAll(lines, ParseZshExtended, Stamped);
    FilterMap(lines, ParseZshExtended)
  }

  /** A line of the fallback, trimmed: a command unless it is empty. */
  function FallbackCommand(line: string): (cmd: string)
    ensures cmd != [] ==> Clean(cmd)
  {
    TrimClean(line);
    Trim(line)
  }

  /** The fallback from the clock read numbered `taken` on: every line that is not blank,
      trimmed, is a command stamped with the next clock read. */
  function FallbackFrom(lines: seq<string>, clock: nat -> Instant, taken: nat): seq<Event>
    decreases |lines|
  {
    if lines == [] then []
    else if FallbackCommand(lines[0]) == [] then FallbackFrom(lines[1..], clock, taken)
    else [(clock(taken), FallbackCommand(lines[0]))] + FallbackFrom(lines[1..], clock, taken + 1)
  }

  /** The events are clean commands taking the clock reads from the one numbered `taken`
      on, in turn. */
  predicate ReadsInTurn(ev: seq<Event>, clock: nat -> Instant, taken: nat) {
    forall k :: 0 <= k < |ev| ==> ev[k].0 == clock(taken + k) && Clean(ev[k].1)
  }

  lemma ReadsInTurnCons(cmd: string, ev: seq<Event>, clock: nat -> Instant, taken: nat)
    requires Clean(cmd) && ReadsInTurn(ev, clock, taken + 1)
    ensures ReadsInTurn([(clock(taken), cmd)] + ev, clock, taken)
  {
    var ev' := [(clock(taken), cmd)] + ev;
    forall k | 1 <= k < |ev'| ensures ev'[k].0 == clock(taken + k) && Clean(ev'[k].1) {
      assert ev'[k] == ev[k - 1];
    }
  }

  lemma {:induction false} FallbackFromSpec(lines: seq<string>, clock: nat -> Instant, taken: nat)
    ensures |FallbackFrom(lines, clock, taken)| <= |lines|
    ensures ReadsInTurn(FallbackFrom(lines, clock, taken), clock, taken)
    decreases |lines|
  {
    if lines != [] {
      var cmd := FallbackCommand(lines[0]);
      if cmd == [] {
        FallbackFromSpec(lines[1..], clock, taken);
      } else {
        FallbackFromSpec(lines[1..], clock, taken + 1);
        ReadsInTurnCons(cmd, FallbackFrom(lines[1..], clock, taken + 1), clock, taken);
      }
    }
  }

  /** The fallback: every line that is not blank, trimmed, is a command; the `k`-th is
      stamped with the `k`-th clock read. */
  function FallbackEvents(lines: seq<string>, clock: nat -> Instant): (ev: seq<Event>)
    ensures |ev| <= |lines|
    ensures forall k :: 0 <= k < |ev| ==> ev[k].0 == clock(k) && Clean(ev[k].1)
  {
    FallbackFromSpec(lines, clock, 0);
    FallbackFrom(lines, clock, 0)
  }

  /** Where reading resumes: the saved offset, or the start when the file is now shorter
      (it was rotated or truncated). */
  function StartOffset(from: nat, fileLen: nat): (c: nat)
    ensures c <= fileLen
    ensures c == (if from <= fileLen then from else 0)
  {
    var cursor := if from < fileLen then from else fileLen;
    if fileLen < from then 0 else cursor
  }

  predicate LooksLikeZsh(shellType: ShellType, lines: seq<string>) {
    shellType.Zsh? ||
    (shellType.Auto? && exists i :: 0 <= i < |lines| && ParseZshExtended(lines[i]).Some?)
  }

  /** The events of lines already read, in the format the setting and the lines select. */
  function HistoryEvents(shellType: ShellType, lines: seq<string>, clock: nat -> Instant): seq<Event> {
    if LooksLikeZsh(shellType, lines) then ZshEvents(lines)
    else if (shellType.Bash? || shellType.Auto?) && BashHistory(lines, clock) != [] then
      BashHistory(lines, clock)
    else FallbackEvents(lines, clock)
  }

  /** What `read_new_history` returns: the new cursor and the events read. */
  function NewHistory(historyFile: string, setting: string, file: Result<Bytes, string>,
                      from: nat, clock: nat -> Instant): Result<(nat, seq<Event>), LifelogError>
  {
    if historyFile == [] then Ok((from, []))
    else
      match file
      case Err(m) => Err(Io(m))
      case Ok(content) =>
        var lines :- ReadText(content[StartOffset(from, |content|)..]);
        if lines == [] then Ok((|content|, []))
        else Ok((|content|, HistoryEvents(DetectShellType(setting), lines, clock)))
  }

  /** The loop keeping the values a parser gives, in order. */
  method KeepParsed<U>(lines: seq<string>, parse: string -> Option<U>) returns (out: seq<U>)
    ensures out == FilterMap(lines, parse)
  {
    out := [];
    var rest := lines;
    while rest != []
      invariant out + FilterMap(rest, parse) == FilterMap(lines, parse)
      decreases |rest|
    {
      var head := match parse(rest[0]) case Some(e) => [e] case None => [];
      assert FilterMap(rest, parse) == head + FilterMap(rest[1..], parse);
      out := out + head;
      rest := rest[1..];
    }
  }

  /** The fallback loop: each non-blank line, trimmed, stamped with a clock read of its
      own. */
  method CollectFallback(lines: seq<string>, clock: nat -> Instant) returns (events: seq<Event>)
    ensures events == FallbackEvents(lines, clock)
  {
    events := [];
    var n := 0;
    var rest := lines;
    while rest != []
      invariant events + FallbackFrom(rest, clock, n) == FallbackFrom(lines, clock, 0)
      decreases |rest|
    {
      FallbackStep(rest, clock, n);
      var cmd := FallbackCommand(rest[0]);
      if cmd != [] {
        var e := (clock(n), cmd);
        var later := FallbackFrom(rest[1..], clock, n + 1);
        assert events + ([e] + later) == (events + [e]) + later;
        events := events + [e];
        n := n + 1;
      }
      rest := rest[1..];
    }
  }

  /** One line of the fallback: a blank one is skipped, another takes the next read. */
  lemma FallbackStep(rest: seq<string>, clock: nat -> Instant, taken: nat)
    requires rest != []
    ensures FallbackFrom(rest, clock, taken) ==
            if FallbackCommand(rest[0]) == [] then FallbackFrom(rest[1..], clock, taken)
            else [(clock(taken), FallbackCommand(rest[0]))] + FallbackFrom(rest[1..], clock, taken + 1)
  {
  }

  /** `read_new_history`. */
  method ReadNewHistory(historyFile: string, setting: string, file: Result<Bytes, string>,
                        from: nat, clock: nat -> Instant) returns (r: Result<(nat, seq<Event>), LifelogError>)
    ensures r == NewHistory(historyFile, setting, file, from, clock)
  {
    if historyFile == [] {
      return Ok((from, []));
    }
    if file.Err? {
      return Err(Io(file.error));
    }
    var content := file.value;
    var fileLen := |content|;
    var cursor := if from < fileLen then from else fileLen;
    if fileLen < from {
      cursor := 0;
    }
    var read := ReadLines(content[cursor..]);
    if read.Err? {
      return Err(read.error);
    }
    var lines := read.value;
    var newCursor := fileLen;
    if lines == [] {
      return Ok((newCursor, []));
    }
    var events := ReadEvents(DetectShellType(setting), lines, clock);
    return Ok((newCursor, events));
  }

  /** The part of `read_new_history` after the lines are read: zsh when the setting says so
      or, unset, some line looks like it; then bash; then every line as a command. */
  method ReadEvents(shellType: ShellType, lines: seq<string>, clock: nat -> Instant) returns (events: seq<Event>)
    ensures events == HistoryEvents(shellType, lines, clock)
  {
    var looksLikeZsh := shellType.Zsh? ||
      (shellType.Auto? && exists i :: 0 <= i < |lines| && ParseZshExtended(lines[i]).Some?);
    if looksLikeZsh {
      events := KeepParsed(lines, ParseZshExtended);
      return;
    }
    if shellType.Bash? || shellType.Auto? {
      var parsed := ParseBashHistTime(lines, clock);
      if parsed != [] {
        return parsed;
      }
    }
    events := CollectFallback(lines, clock);
  }

  /** Every format gives clean commands; zsh is chosen when the setting says so, or when
      it is unset and some line parses as zsh, which is when the zsh reading is not empty;
      bash is read when zsh is not chosen, unless nothing then comes of it. */
  lemma HistoryEventsSpec(shellType: ShellType, lines: seq<string>, clock: nat -> Instant)
    ensures var ev := HistoryEvents(shellType, lines, clock);
            forall k :: 0 <= k < |ev| ==> Clean(ev[k].1)
    ensures shellType.Zsh? ==> HistoryEvents(shellType, lines, clock) == ZshEvents(lines)
    ensures shellType.Auto? ==> (LooksLikeZsh(shellType, lines) <==> ZshEvents(lines) != [])
    ensures !LooksLikeZsh(shellType, lines) && !shellType.Zsh? && BashHistory(lines, clock) != [] ==>
              HistoryEvents(shellType, lines, clock) == BashHistory(lines, clock)
  {
    HistoryClean(shellType, lines, clock);
    if shellType.Auto? {
      FilterMapFrom(lines, ParseZshExtended);
    }
  }

  lemma HistoryClean(shellType: ShellType, lines: seq<string>, clock: nat -> Instant)
    ensures var ev := HistoryEvents(shellType, lines, clock);
            forall k :: 0 <= k < |ev| ==> Clean(ev[k].1)
  {
    if !LooksLikeZsh(shellType, lines) && (shellType.Bash? || shellType.Auto?) && BashHistory(lines, clock) != [] {
      ClassifiedWell(lines);
      BashEventsSpec(Map(lines, Classify), None, clock, 0);
    }
  }

  /** No history file configured reads nothing and keeps the cursor; a failed read is an
      I/O error, and so are bytes after the resume offset that are not UTF-8; otherwise the
      cursor moves to the end of the file and the lines read are the text after the saved
      offset, or after the start if the file shrank. */
  lemma NewHistorySpec(historyFile: string, setting: string, file: Result<Bytes, string>,
                       from: nat, clock: nat -> Instant)
    ensures var r := NewHistory(historyFile, setting, file, from, clock);
            (historyFile == [] ==> r == Ok((from, []))) &&
            (historyFile != [] && file.Err? ==> r == Err(Io(file.error)))
    ensures historyFile != [] && file.Ok? ==>
              var start := if from <= |file.value| then from else 0;
              var r := NewHistory(historyFile, setting, file, from, clock);
              (r.Ok? <==> Decode(file.value[start..]).Some?) &&
              (r.Err? ==> r == Err(Io(InvalidUtf8))) &&
              (r.Ok? ==> r.value.0 == |file.value|)
    ensures historyFile != [] && file.Ok? ==>
              var start := if from <= |file.value| then from else 0;
              var read := ReadText(file.value[start..]);
              read.Ok? ==>
                Flatten(read.value) == Decode(file.value[start..]).value &&
                NewHistory(historyFile, setting, file, from, clock).value.1 ==
                (if read.value == [] then [] else HistoryEvents(DetectShellType(setting), read.value, clock))
  {
    if historyFile != [] && file.Ok? {
      var start := if from <= |file.value| then from else 0;
      ReadTextSpec(file.value[start..]);
    }
  }

  /** A saved offset that falls inside a character, on a continuation byte, makes the
      read an I/O error. */
  lemma CursorInsideCharacter(historyFile: string, setting: string, content: Bytes,
                              from: nat, clock: nat -> Instant)
    requires historyFile != [] && from < |content| && IsCont(content[from])
    ensures NewHistory(historyFile, setting, Ok(content), from, clock) == Err(Io(InvalidUtf8))
  {
    DecodeFromContinuation(content[from..]);
    ReadTextSpec(content[from..]);
  }

  /** A history file holding the encoding of a text, read from the start, gives the lines
      of that text. */
  lemma EncodedHistoryReads(historyFile: string, setting: string, text: string, clock: nat -> Instant)
    requires historyFile != []
    ensures var r := NewHistory(historyFile, setting, Ok(Encode(text)), 0, clock);
            r.Ok? && r.value.0 == |Encode(text)| && Flatten(ReadText(Encode(text)).value) == text
  {
    DecodeEncode(text);
    ReadTextSpec(Encode(text));
    NewHistorySpec(historyFile, setting, Ok(Encode(text)), 0, clock);
    assert Encode(text)[0..] == Encode(text);
  }

  /** `load_cursor`: the saved text, trimmed, as a `u64`; anything else is offset 0. */
  function LoadCursor(saved: Option<string>): (c: nat)
    ensures c <= U64_MAX
  {
    match saved
    case None => 0
    case Some(s) =>
      match ParseU64(Trim(s))
      case None => 0
      case Some(v) => v
  }

  /** `save_cursor`: the offset in decimal. */
  function SaveCursor(c: nat): string {
    NatToString(c)
  }

  /** A saved cursor is loaded back unchanged; an unreadable one restarts at 0. */
  lemma CursorRoundTrip(c: nat)
    requires c <= U64_MAX
    ensures LoadCursor(Some(SaveCursor(c))) == c
    ensures LoadCursor(None) == 0 && LoadCursor(Some("x")) == 0
  {
    var s := NatToString(c);
    assert IsAsciiDigit(s[0]) && IsAsciiDigit(s[|s| - 1]);
    TrimNoEdges(s);
    IntToStringRoundTrip(c, 0, U64_MAX);
    TrimNoEdges("x");
  }

  /** One pass of `run`: the cursor follows a successful read, and is saved only when the
      read produced events; a failed read changes nothing. */
  function PollStep(cursor: nat, read: Result<(nat, seq<Event>), LifelogError>)
    : (r: (nat, Option<nat>))
    ensures read.Err? ==> r == (cursor, None)
    ensures read.Ok? ==> r.0 == read.value.0
    ensures r.1.Some? <==> read.Ok? && read.value.1 != []
    ensures r.1.Some? ==> r.1.value == r.0
  {
    match read
    case Err(_) => (cursor, None)
    case Ok((c, events)) => (c, if events != [] then Some(c) else None)
  }

  /** The polling interval: the configured one when positive, else two seconds. */
  function PollInterval(interval: real): (r: real)
    ensures r > 0.0
    ensures interval > 0.0 ==> r == interval
  {
    if interval > 0.0 then interval else 2.0
  }

  /** `ShellHistoryFrame`, as `run` fills it. */
  datatype ShellFrame = ShellFrame(uuid: string, timestamp: Option<ProtoTimestamp>, command: string,
                                   workingDir: string, exitCode: int,
                                   tDevice: Option<ProtoTimestamp>,
                                   tCanonical: Option<ProtoTimestamp>, tEnd: Option<ProtoTimestamp>)

  /** The frame of an event: one timestamp for all four time fields, no working directory
      and exit code -1, since history files record neither. */
  function ToFrame(uuid: string, e: Event): (f: ShellFrame)
    ensures f.uuid == uuid && f.command == e.1 && f.workingDir == "" && f.exitCode == -1
    ensures f.tDevice == f.timestamp && f.tCanonical == f.timestamp && f.tEnd == f.timestamp
    ensures InRange(e.0) ==> Types.ToDt(f.timestamp) == e.0
  {
    var ts := Types.ToPbTs(e.0);
    Types.ToDtProperties(e.0);
    ShellFrame(uuid, ts, e.1, "", -1, ts, ts, ts)
  }
}
