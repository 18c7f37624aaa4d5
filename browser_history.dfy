/** The browser-history collector (collector/src/modules/browser_history.rs). Chrome keeps
    visit times as microseconds since 1601-01-01, the Windows epoch; the collector converts
    them to Unix instants, keeps its cursor in a file in Chrome's unit, and each call reads
    the visits after the cursor up to now, then moves the cursor to now. The history
    database is the sequence of joined (url, visit) rows it would scan. The two clock
    reads, the UUID generator and the outcomes of the two writes of the cursor file are
    parameters. */
module BrowserHistory {
  import opened Wrappers
  import opened Time
  import opened Decimal
  import opened Sorting
  import Types

  /** Microseconds from 1601-01-01 to 1970-01-01. */
  const WINDOWS_EPOCH_MICROS: int := 11644473600000000

  /** The largest Chrome time that converts to an instant chrono can hold. */
  const MAX_CHROME: int := WINDOWS_EPOCH_MICROS + MAX_SECS * MICROS_PER_SEC as int + 999_999

  /** `as u32` on an `i64`: the low 32 bits. */
  function AsU32(i: int): (u: nat)
    ensures u < 0x1_0000_0000
    ensures 0 <= i < 0x1_0000_0000 ==> u == i
    ensures -0x1_0000_0000 <= i < 0 ==> u == i + 0x1_0000_0000
  {
    i % 0x1_0000_0000
  }

  /** Chrome microseconds to a Unix instant: the Unix microseconds are split into seconds
      and a remainder with Rust's truncating `/` and `%`, the remainder scaled to
      nanoseconds and cast to `u32`; what chrono refuses becomes the Unix epoch
      (`unwrap_or_default`). */
  function ChromeToUtc(micros: int): Instant {
    var unixMicros := micros - WINDOWS_EPOCH_MICROS;
    var secs := TruncDiv(unixMicros, MICROS_PER_SEC);
    var nanos := TruncRem(unixMicros, MICROS_PER_SEC) * NANOS_PER_MICRO as int;
    FromTimestamp(secs, AsU32(nanos)).GetOr(0)
  }

  /** A Unix instant in Chrome microseconds: whole seconds times 10^6, plus the
      sub-second microseconds, plus the epoch offset. */
  function UtcToChrome(t: Instant): int {
    Timestamp(t) * MICROS_PER_SEC + SubsecMicros(t) + WINDOWS_EPOCH_MICROS
  }

  /** Division by a thousand and by a million, pinned down by quotient and remainder. */
  lemma DivByMicro(a: int, q: int, r: int)
    requires a == q * 1000 + r && 0 <= r < 1000
    ensures a / 1000 == q && a % 1000 == r
  {
  }

  lemma DivByMega(a: int, q: int, r: int)
    requires a == q * 1_000_000 + r && 0 <= r < 1_000_000
    ensures a / 1_000_000 == q && a % 1_000_000 == r
  {
  }

  /** From the Windows epoch on, a Chrome time is its Unix microseconds in nanoseconds. */
  lemma ChromeToUtcFromEpoch(m: int)
    requires WINDOWS_EPOCH_MICROS <= m <= MAX_CHROME
    ensures ChromeToUtc(m) == (m - WINDOWS_EPOCH_MICROS) * NANOS_PER_MICRO
    ensures 0 <= ChromeToUtc(m) <= MAX_UTC
  {
    var u := m - WINDOWS_EPOCH_MICROS;
    var s := u / MICROS_PER_SEC;
    var r := u % MICROS_PER_SEC;
    assert TruncDiv(u, MICROS_PER_SEC) == s && TruncRem(u, MICROS_PER_SEC) == r;
    assert s <= MAX_SECS;
    assert u * NANOS_PER_MICRO == s * NANOS_PER_SEC + r * NANOS_PER_MICRO;
  }

  /** Before the Unix epoch a remainder that is not zero is negative; cast to `u32` it is
      at least 2^32 - 10^9, which chrono refuses, so the visit is dated at the Unix epoch.
      A whole number of seconds converts exactly. */
  lemma ChromeToUtcBeforeEpoch(m: int)
    requires m < WINDOWS_EPOCH_MICROS
    ensures (m - WINDOWS_EPOCH_MICROS) % MICROS_PER_SEC != 0 ==> ChromeToUtc(m) == 0
    ensures (m - WINDOWS_EPOCH_MICROS) % MICROS_PER_SEC == 0 &&
            MIN_SECS * MICROS_PER_SEC <= m - WINDOWS_EPOCH_MICROS ==>
              ChromeToUtc(m) == (m - WINDOWS_EPOCH_MICROS) * NANOS_PER_MICRO
  {
    var u := m - WINDOWS_EPOCH_MICROS;
    var q := (-u) / MICROS_PER_SEC;
    var r := (-u) % MICROS_PER_SEC;
    assert TruncDiv(u, MICROS_PER_SEC) == -q && TruncRem(u, MICROS_PER_SEC) == -r;
    assert -u == q * MICROS_PER_SEC + r;
    if r != 0 {
      assert u % MICROS_PER_SEC != 0 by {
        DivByMega(u, -q - 1, MICROS_PER_SEC - r);
      }
      assert AsU32(-r * NANOS_PER_MICRO) >= 2 * NANOS_PER_SEC;
    } else {
      assert u % MICROS_PER_SEC == 0 by {
        DivByMega(u, -q, 0);
      }
      assert u * NANOS_PER_MICRO == -q * NANOS_PER_SEC;
    }
  }

  /** Back to Chrome's unit: the instant's microseconds, rounded down, after the epoch
      offset. */
  lemma UtcToChromeValue(t: Instant)
    ensures UtcToChrome(t) == t / NANOS_PER_MICRO + WINDOWS_EPOCH_MICROS
  {
    var s := t / NANOS_PER_SEC;
    var n := t % NANOS_PER_SEC;
    assert t == (s * MICROS_PER_SEC + n / NANOS_PER_MICRO) * NANOS_PER_MICRO + n % NANOS_PER_MICRO;
    DivByMicro(t, s * MICROS_PER_SEC + n / NANOS_PER_MICRO, n % NANOS_PER_MICRO);
  }

  /** An instant at or after the Unix epoch comes back from Chrome's unit truncated to the
      microsecond, and a Chrome time from the Windows epoch on comes back unchanged. */
  lemma EpochRoundTrips(t: Instant, m: int)
    ensures 0 <= t <= MAX_UTC ==> ChromeToUtc(UtcToChrome(t)) == t - t % NANOS_PER_MICRO
    ensures WINDOWS_EPOCH_MICROS <= m <= MAX_CHROME ==> UtcToChrome(ChromeToUtc(m)) == m
  {
    if 0 <= t <= MAX_UTC {
      UtcToChromeValue(t);
      ChromeToUtcFromEpoch(UtcToChrome(t));
    }
    if WINDOWS_EPOCH_MICROS <= m <= MAX_CHROME {
      ChromeToUtcFromEpoch(m);
      UtcToChromeValue(ChromeToUtc(m));
      DivByMicro(ChromeToUtc(m), m - WINDOWS_EPOCH_MICROS, 0);
    }
  }

  /** An in-range instant is an `i64` in Chrome's unit, so the cursor text always parses. */
  lemma UtcToChromeFitsI64(t: Instant)
    requires InRange(t)
    ensures I64_MIN <= UtcToChrome(t) <= I64_MAX
  {
    UtcToChromeValue(t);
  }

  /** How opening and reading the cursor file went. */
  datatype CursorFile = Unopenable | ReadFailed(message: string) | Contents(text: string)

  datatype BrowserError =
    | Io(message: string)
    | Sqlite(message: string)
    | VisitCountOutOfRange(value: int)

  /** A joined `urls`/`visits` row: the page, its title, the visit's Chrome time and the
      page's visit count, as stored. */
  datatype Visit = Visit(url: string, title: string, visitTime: int, visitCount: int)

  datatype BrowserFrame = BrowserFrame(uuid: string, url: string, title: string,
                                       timestamp: Option<ProtoTimestamp>, visitCount: nat)

  /** The start of the first window when there is no cursor file, as written: the epoch
      constant is divided into seconds and nanoseconds without subtracting itself. */
  function InitialLastQueryAsWritten(): Instant {
    FromTimestamp(WINDOWS_EPOCH_MICROS / MICROS_PER_SEC,
                  AsU32((WINDOWS_EPOCH_MICROS % MICROS_PER_SEC) * NANOS_PER_MICRO)).GetOr(0)
  }

  /** The as-written start is 11644473600 s after the Unix epoch (in the year 2338), so
      the first window starts at twice the epoch constant in Chrome's unit and, for any
      call before then, holds no visit at all; yet the cursor file it writes decodes to
      the Unix epoch. */
  lemma InitialLastQueryAsWrittenIsLate(now: Instant, v: int)
    requires InRange(now) && now < InitialLastQueryAsWritten()
    ensures InitialLastQueryAsWritten() == Seconds(11644473600)
    ensures UtcToChrome(InitialLastQueryAsWritten()) == 2 * WINDOWS_EPOCH_MICROS
    ensures !(UtcToChrome(InitialLastQueryAsWritten()) < v <= UtcToChrome(now))
    ensures ChromeToUtc(WINDOWS_EPOCH_MICROS) == 0
  {
    UtcToChromeValue(InitialLastQueryAsWritten());
    UtcToChromeValue(now);
    ChromeToUtcFromEpoch(WINDOWS_EPOCH_MICROS);
  }

  /** The start of the first window when there is no cursor file: the instant the cursor
      text written on that path decodes to, the Unix epoch. */
  function InitialLastQuery(): (t: Instant)
    ensures t == 0
    ensures UtcToChrome(t) == WINDOWS_EPOCH_MICROS
  {
    ChromeToUtcFromEpoch(WINDOWS_EPOCH_MICROS);
    UtcToChromeValue(0);
    ChromeToUtc(WINDOWS_EPOCH_MICROS)
  }

  /** The start of the window: the cursor's Chrome time; the clock read taken at that
      point (`early`) when the text is not an `i64`; `start` when the file cannot be
      opened. As written, `start` is `InitialLastQueryAsWritten()`; corrected, it is
      `InitialLastQuery()`. */
  function LastQuery(start: Instant, cursor: CursorFile, early: Instant): (r: Instant)
    requires !cursor.ReadFailed?
    ensures cursor.Unopenable? ==> r == start
    ensures cursor.Contents? && ParseI64(cursor.text).None? ==> r == early
    ensures cursor.Contents? && ParseI64(cursor.text).Some? &&
            WINDOWS_EPOCH_MICROS <= ParseI64(cursor.text).value <= MAX_CHROME ==>
              UtcToChrome(r) == ParseI64(cursor.text).value
  {
    match cursor
    case Unopenable => start
    case Contents(text) =>
      match ParseI64(text)
      case Some(m) => EpochRoundTrips(0, m); ChromeToUtc(m)
      case None => early
  }

  /** The SQL condition `visit_time > ? AND visit_time <= ?`. */
  predicate InWindow(v: Visit, lastChrome: int, nowChrome: int) {
    lastChrome < v.visitTime <= nowChrome
  }

  function Window(rows: seq<Visit>, lastChrome: int, nowChrome: int): (r: seq<Visit>)
    ensures forall i :: 0 <= i < |r| ==> InWindow(r[i], lastChrome, nowChrome)
  {
    Filter(rows, (v: Visit) => InWindow(v, lastChrome, nowChrome))
  }

  predicate IsU32(x: int) { 0 <= x < 0x1_0000_0000 }

  function FrameOf(v: Visit, uuid: string): BrowserFrame
    requires IsU32(v.visitCount)
  {
    BrowserFrame(uuid, v.url, v.title, Types.ToPbTs(ChromeToUtc(v.visitTime)), v.visitCount)
  }

  /** The frames of the selected rows, in order, the `k`-th taking the `k`-th generated
      UUID; the first row whose count is not a `u32` ends the scan with an error. */
  function Frames(rows: seq<Visit>, uuids: nat -> string, k: nat): (r: Result<seq<BrowserFrame>, BrowserError>)
    ensures r.Ok? <==> forall i :: 0 <= i < |rows| ==> IsU32(rows[i].visitCount)
    ensures r.Ok? ==> |r.value| == |rows| &&
                      (forall i :: 0 <= i < |rows| ==> r.value[i] == FrameOf(rows[i], uuids(k + i)))
    ensures r.Err? ==> r.error.VisitCountOutOfRange? && !IsU32(r.error.value)
    decreases |rows|
  {
    if rows == [] then Ok([])
    else if !IsU32(rows[0].visitCount) then Err(VisitCountOutOfRange(rows[0].visitCount))
    else
      match Frames(rows[1..], uuids, k + 1)
      case Err(e) => Err(e)
      case Ok(fs) => Ok([FrameOf(rows[0], uuids(k))] + fs)
  }

  /** The `for entry in history_iter` loop pushing each converted row. */
  method CollectFrames(rows: seq<Visit>, uuids: nat -> string) returns (r: Result<seq<BrowserFrame>, BrowserError>)
    ensures r == Frames(rows, uuids, 0)
  {
    var entries: seq<BrowserFrame> := [];
    var rest := rows;
    var k := 0;
    FramesStep(rows, uuids, 0, []);
    while rest != []
      invariant Frames(rows, uuids, 0) == Prepend(entries, Frames(rest, uuids, k))
      decreases |rest|
    {
      FramesStep(rest, uuids, k, entries);
      var v := rest[0];
      if !IsU32(v.visitCount) {
        return Err(VisitCountOutOfRange(v.visitCount));
      }
      entries := entries + [FrameOf(v, uuids(k))];
      rest := rest[1..];
      k := k + 1;
    }
    FramesStep(rest, uuids, k, entries);
    r := Ok(entries);
  }

  /** One row of the scan: a bad count ends it with its error, a good one moves its frame
      to the pushed ones. */
  lemma FramesStep(rest: seq<Visit>, uuids: nat -> string, k: nat, entries: seq<BrowserFrame>)
    ensures rest == [] ==> Prepend(entries, Frames(rest, uuids, k)) == Ok(entries)
    ensures entries == [] ==> Prepend(entries, Frames(rest, uuids, k)) == Frames(rest, uuids, k)
    ensures rest != [] && !IsU32(rest[0].visitCount) ==>
              Prepend(entries, Frames(rest, uuids, k)) == Err(VisitCountOutOfRange(rest[0].visitCount))
    ensures rest != [] && IsU32(rest[0].visitCount) ==>
              Prepend(entries, Frames(rest, uuids, k)) ==
              Prepend(entries + [FrameOf(rest[0], uuids(k))], Frames(rest[1..], uuids, k + 1))
  {
    assert entries + [] == entries;
    var f := Frames(rest, uuids, k);
    if f.Ok? {
      assert [] + f.value == f.value;
    }
    if rest != [] && IsU32(rest[0].visitCount) {
      var tail := Frames(rest[1..], uuids, k + 1);
      if tail.Ok? {
        var x := FrameOf(rest[0], uuids(k));
        assert entries + ([x] + tail.value) == (entries + [x]) + tail.value;
      }
    }
  }

  /** The frames already pushed, in front of what the rest of the scan gives. */
  function Prepend(entries: seq<BrowserFrame>, r: Result<seq<BrowserFrame>, BrowserError>)
    : Result<seq<BrowserFrame>, BrowserError>
  {
    if r.Err? then r else Ok(entries + r.value)
  }

  /** How one `fs::write` of the cursor file went: the text was written; the file could
      not be created or truncated, so it keeps what it held; or it was truncated and only
      the first `written` characters went out. Either failure is logged and the call goes
      on. */
  datatype FileWrite = WriteDone | CreateFails(message: string) | WriteFails(message: string, written: nat)

  /** The cursor text after writing `text`, where `file` is what this call had written
      before (None: the file is as the call found it). */
  function AfterWrite(file: Option<string>, text: string, w: FileWrite): (f: Option<string>)
    ensures w.WriteDone? ==> f == Some(text)
    ensures w.CreateFails? ==> f == file
    ensures w.WriteFails? ==> f.Some? && f.value <= text
  {
    match w
    case WriteDone => Some(text)
    case CreateFails(_) => file
    case WriteFails(_, k) => Some(if k < |text| then text[..k] else text)
  }

  /** The cursor text an unopenable file is written with first. */
  function Created(cursor: CursorFile, createWrite: FileWrite): Option<string> {
    if cursor.Unopenable? then AfterWrite(None, IntToString(WINDOWS_EPOCH_MICROS), createWrite) else None
  }

  /** `get_data`: the result and the cursor text the call leaves in the file (None when
      it does not write it). `start` is the start for an unopenable file, `early` the
      clock read taken when the cursor does not parse and `now` the one taken before the
      query; `createWrite` and `saveWrite` are how the two writes went. A read error ends
      the call first; an unopenable file is written with the epoch constant at once; a
      database error or a bad row keeps whatever cursor is there; after a successful scan
      now's Chrome time is saved. A failed write is only logged. */
  function GetData(start: Instant, cursor: CursorFile, early: Instant, now: Instant,
                   db: Result<seq<Visit>, string>, uuids: nat -> string,
                   createWrite: FileWrite, saveWrite: FileWrite)
    : (r: (Result<seq<BrowserFrame>, BrowserError>, Option<string>))
    ensures cursor.ReadFailed? ==> r == (Err(Io(cursor.message)), None)
    ensures r.0.Ok? ==> r.1 == AfterWrite(Created(cursor, createWrite), IntToString(UtcToChrome(now)), saveWrite)
    ensures r.0.Ok? && saveWrite.WriteDone? ==> r.1 == Some(IntToString(UtcToChrome(now)))
    ensures r.0.Err? ==> r.1 == Created(cursor, createWrite)
    ensures !cursor.ReadFailed? && db.Ok? ==>
              r.0 == Frames(Window(db.value, UtcToChrome(LastQuery(start, cursor, early)), UtcToChrome(now)), uuids, 0)
  {
    if cursor.ReadFailed? then (Err(Io(cursor.message)), None)
    else
      var created := Created(cursor, createWrite);
      var lastChrome := UtcToChrome(LastQuery(start, cursor, early));
      var nowChrome := UtcToChrome(now);
      match db
      case Err(m) => (Err(Sqlite(m)), created)
      case Ok(rows) =>
        match Frames(Window(rows, lastChrome, nowChrome), uuids, 0)
        case Err(e) => (Err(e), created)
        case Ok(frames) => (Ok(frames), AfterWrite(created, IntToString(nowChrome), saveWrite))
  }

  /** A successful call returns one frame per visit in the window after the cursor up to
      now, in the database's order, dated by converting the visit's Chrome time; with no
      cursor file the window opens at `start`, whichever start is taken. A failed call
      never advances the cursor. */
  lemma GetDataSpec(start: Instant, cursor: CursorFile, early: Instant, now: Instant, rows: seq<Visit>,
                    uuids: nat -> string, createWrite: FileWrite, saveWrite: FileWrite, v: Visit)
    requires !cursor.ReadFailed?
    ensures var (r, written) := GetData(start, cursor, early, now, Ok(rows), uuids, createWrite, saveWrite);
            var last := UtcToChrome(LastQuery(start, cursor, early));
            var sel := Window(rows, last, UtcToChrome(now));
            (cursor.Unopenable? ==> last == UtcToChrome(start)) &&
            (r.Ok? ==>
               |r.value| == |sel| &&
               (forall i :: 0 <= i < |sel| ==>
                  r.value[i].url == sel[i].url && r.value[i].title == sel[i].title &&
                  r.value[i].timestamp == Types.ToPbTs(ChromeToUtc(sel[i].visitTime))) &&
               (v in sel <==> v in rows && InWindow(v, last, UtcToChrome(now)))) &&
            (r.Err? ==> written == Created(cursor, createWrite))
  {
    var last := UtcToChrome(LastQuery(start, cursor, early));
    FilterMembers(rows, (x: Visit) => InWindow(x, last, UtcToChrome(now)), v);
  }

  /** The outcome of the two writes never changes what the call returns. */
  lemma WriteFailuresIgnored(start: Instant, cursor: CursorFile, early: Instant, now: Instant,
                             db: Result<seq<Visit>, string>, uuids: nat -> string,
                             c1: FileWrite, s1: FileWrite, c2: FileWrite, s2: FileWrite)
    ensures GetData(start, cursor, early, now, db, uuids, c1, s1).0 ==
            GetData(start, cursor, early, now, db, uuids, c2, s2).0
  {
  }

  /** As written, a first call before the year 2338 collects nothing, whatever the
      database holds. */
  lemma FirstCallAsWrittenCollectsNothing(early: Instant, now: Instant, rows: seq<Visit>, uuids: nat -> string,
                                          createWrite: FileWrite, saveWrite: FileWrite)
    requires InRange(now) && now < InitialLastQueryAsWritten()
    ensures GetData(InitialLastQueryAsWritten(), Unopenable, early, now, Ok(rows), uuids, createWrite, saveWrite).0 == Ok([])
  {
    var last := UtcToChrome(InitialLastQueryAsWritten());
    UtcToChromeValue(InitialLastQueryAsWritten());
    UtcToChromeValue(now);
    assert UtcToChrome(now) < last;
    FilterNone(rows, (x: Visit) => InWindow(x, last, UtcToChrome(now)));
  }

  /** Corrected, a first call collects every visit after the Unix epoch up to now. */
  lemma FirstCallCorrectedCollectsAll(early: Instant, now: Instant, rows: seq<Visit>, v: Visit)
    ensures var sel := Window(rows, UtcToChrome(LastQuery(InitialLastQuery(), Unopenable, early)), UtcToChrome(now));
            v in sel <==> v in rows && WINDOWS_EPOCH_MICROS < v.visitTime <= UtcToChrome(now)
  {
    FilterMembers(rows, (x: Visit) => InWindow(x, WINDOWS_EPOCH_MICROS, UtcToChrome(now)), v);
  }

  /** A cursor that does not parse starts the window at the clock read taken then, so the
      call collects exactly the visits between that read and the later one, and nothing
      when both read the same Chrome time. */
  lemma GarbledCursorCollectsBetweenReads(start: Instant, text: string, early: Instant, now: Instant,
                                          rows: seq<Visit>, uuids: nat -> string,
                                          createWrite: FileWrite, saveWrite: FileWrite)
    requires ParseI64(text).None?
    ensures GetData(start, Contents(text), early, now, Ok(rows), uuids, createWrite, saveWrite).0 ==
            Frames(Window(rows, UtcToChrome(early), UtcToChrome(now)), uuids, 0)
    ensures UtcToChrome(early) == UtcToChrome(now) ==>
              GetData(start, Contents(text), early, now, Ok(rows), uuids, createWrite, saveWrite) ==
              (Ok([]), AfterWrite(None, IntToString(UtcToChrome(now)), saveWrite))
  {
    var c := UtcToChrome(now);
    if UtcToChrome(early) == c {
      FilterNone(rows, (x: Visit) => InWindow(x, c, c));
    }
  }

  /** A save that stops after `k` characters leaves a cursor that does not parse when
      nothing went out, so the next call starts at its own clock read and skips the
      visits in between; otherwise it is now's Chrome time with its last digits dropped,
      an earlier time, so the next call collects again visits this one returned. */
  lemma TornCursor(now: Instant, file: Option<string>, m: string, k: nat)
    requires 0 <= now <= MAX_UTC
    ensures var c := UtcToChrome(now);
            var text := IntToString(c);
            var torn := AfterWrite(file, text, WriteFails(m, k));
            torn.Some? &&
            (k == 0 ==> ParseI64(torn.value).None?) &&
            (0 < k < |text| ==> ParseI64(torn.value) == Some(DropDigits(c, |text| - k)) &&
                                DropDigits(c, |text| - k) < c) &&
            (k >= |text| ==> ParseI64(torn.value) == Some(c))
  {
    var c := UtcToChrome(now);
    assert 0 < c <= I64_MAX by {
      UtcToChromeValue(now);
      UtcToChromeFitsI64(now);
    }
    TornText(c, file, m, k);
  }

  /** `TornCursor` for any positive `i64` Chrome time. */
  lemma TornText(c: nat, file: Option<string>, m: string, k: nat)
    requires 0 < c <= I64_MAX
    ensures var text := IntToString(c);
            var torn := AfterWrite(file, text, WriteFails(m, k));
            torn.Some? &&
            (k == 0 ==> ParseI64(torn.value).None?) &&
            (0 < k < |text| ==> ParseI64(torn.value) == Some(DropDigits(c, |text| - k)) &&
                                DropDigits(c, |text| - k) < c) &&
            (k >= |text| ==> ParseI64(torn.value) == Some(c))
  {
    assert IntToString(c) == NatToString(c);
    DigitsCutParse(c, k);
  }

  /** The cursor written at `now` is read back on the next call as `now` truncated to the
      microsecond, which is the same Chrome time: the next window starts exactly where this
      one ended, so a visit falls in at most one of two successive windows, and in one of
      them when it lies between the first start and the second end. */
  lemma CursorResumes(start: Instant, early: Instant, now: Instant, later: Instant, last: int, t: int)
    requires 0 <= now <= MAX_UTC
    ensures LastQuery(start, Contents(IntToString(UtcToChrome(now))), early) == now - now % NANOS_PER_MICRO
    ensures UtcToChrome(LastQuery(start, Contents(IntToString(UtcToChrome(now))), early)) == UtcToChrome(now)
    ensures var next := UtcToChrome(LastQuery(start, Contents(IntToString(UtcToChrome(now))), early));
            var v := Visit("", "", t, 0);
            !(InWindow(v, last, UtcToChrome(now)) && InWindow(v, next, UtcToChrome(later))) &&
            (last <= UtcToChrome(now) <= UtcToChrome(later) ==>
               (InWindow(v, last, UtcToChrome(later)) <==>
                  InWindow(v, last, UtcToChrome(now)) || InWindow(v, next, UtcToChrome(later))))
  {
    var c := UtcToChrome(now);
    UtcToChromeFitsI64(now);
    IntToStringRoundTrip(c, I64_MIN, I64_MAX);
    EpochRoundTrips(now, c);
    UtcToChromeValue(now);
    ChromeToUtcFromEpoch(c);
  }
}
