/** The disk buffer (`DiskBuffer`, common/utils/src/buffer.rs): a write-ahead log of
    records, each a 4-byte little-endian length followed by that many bytes of a
    serialized item, and a cursor file holding the 8-byte little-endian offset up to which
    the log has been consumed. The two files are byte sequences, `None` when the file
    does not exist; the item serializer and deserializer (bincode) are parameters. */
module Buffer {
  import opened Wrappers
  import opened Bytes

  datatype BufferError = Io(message: string) | Serialization(message: string) | CorruptData(message: string)

  /** What the file system does to one write of `append` or `commit_offset`: all of it
      succeeds; the open fails, so the file is not touched; or a write or the flush fails
      after `written` bytes reached the file. */
  datatype WriteIo = WriteDone | OpenFails(message: string) | WriteFails(message: string, written: nat)

  /** What the file system does to one `peek_chunk`: all of it succeeds, or the cursor
      file, the log file (open or length) or the seek into the log fails. */
  datatype ReadIo = ReadDone | CursorFails(message: string) | LogFails(message: string) | SeekFails(message: string)

  /** The part of `b` that reached the file when writing stopped after `k` bytes. */
  function Written(b: Bytes, k: nat): (w: Bytes)
    ensures w <= b && (k < |b| ==> |w| == k) && (k >= |b| ==> w == b)
  {
    if k < |b| then b[..k] else b
  }

  /** One record as `append` writes it: the length as a `u32` (truncated, as `as u32` does),
      then the payload. */
  function Frame(payload: Bytes): (f: Bytes)
    ensures |f| == 4 + |payload|
  {
    LeBytes(|payload| % U32_LIMIT, 4) + payload
  }

  /** The records of the payloads, one after another. */
  function Frames(payloads: seq<Bytes>): (f: Bytes)
    decreases |payloads|
  {
    if payloads == [] then [] else Frame(payloads[0]) + Frames(payloads[1..])
  }

  /** `get_committed_offset`: 0 without a cursor file or with one shorter than 8 bytes,
      otherwise the little-endian value of its first 8 bytes. */
  function CommittedOffsetOf(cursor: Option<Bytes>): (o: nat)
    ensures o < U64_LIMIT
    ensures cursor.None? || |cursor.value| < 8 ==> o == 0
  {
    if cursor.None? || |cursor.value| < 8 then 0
    else
      LeValueBound(cursor.value[..8]);
      Pow256Values();
      LeValue(cursor.value[..8])
  }

  /** `get_uncommitted_size`: the log length past the committed offset, 0 when the cursor
      lies beyond the log or there is no log. */
  function UncommittedSizeOf(log: Option<Bytes>, cursor: Option<Bytes>): (n: nat)
    ensures log.None? ==> n == 0
    ensures log.Some? && |log.value| >= CommittedOffsetOf(cursor) ==> n == |log.value| - CommittedOffsetOf(cursor)
    ensures log.Some? && |log.value| < CommittedOffsetOf(cursor) ==> n == 0
  {
    var readOffset := CommittedOffsetOf(cursor);
    if log.None? then 0
    else if |log.value| >= readOffset then |log.value| - readOffset
    else 0
  }

  /** Puts `items` in front of the items of a peek result; errors pass through. */
  function Prepend<T>(items: seq<T>, r: Result<(nat, seq<T>), BufferError>): Result<(nat, seq<T>), BufferError> {
    if r.Err? then r else Ok((r.value.0, items + r.value.1))
  }

  lemma PrependPrepend<T>(a: seq<T>, b: seq<T>, r: Result<(nat, seq<T>), BufferError>)
    ensures Prepend(a, Prepend(b, r)) == Prepend(a + b, r)
  {
    if r.Ok? {
      assert a + (b + r.value.1) == (a + b) + r.value.1;
    }
  }

  /** Reading at most `k` records of `log` from byte `cur`: the offset after the last
      complete record read, and the items. It stops at the end of the log and at an
      incomplete trailing record; a payload that does not deserialize is an error. */
  function PeekFrom<T>(log: Bytes, cur: nat, k: nat, deserialize: Bytes -> Result<T, string>)
    : (r: Result<(nat, seq<T>), BufferError>)
    ensures r.Ok? ==> |r.value.1| <= k && cur <= r.value.0 <= (if cur <= |log| then |log| else cur)
    decreases k
  {
    if k == 0 || cur >= |log| || cur + 4 > |log| then Ok((cur, []))
    else
      var len := LeValue(log[cur..cur + 4]);
      if cur + 4 + len > |log| then Ok((cur, []))
      else match deserialize(log[cur + 4..cur + 4 + len])
        case Err(e) => Err(Serialization(e))
        case Ok(item) => Prepend([item], PeekFrom(log, cur + 4 + len, k - 1, deserialize))
  }

  /** `peek_chunk` on the two files. */
  function PeekChunkOf<T>(log: Option<Bytes>, cursor: Option<Bytes>, maxItems: nat, deserialize: Bytes -> Result<T, string>)
    : Result<(nat, seq<T>), BufferError>
  {
    var start := CommittedOffsetOf(cursor);
    if log.None? || start >= |log.value| then Ok((start, []))
    else PeekFrom(log.value, start, maxItems, deserialize)
  }

  /** `append` on the log, from the item's serialization: the result and the new log.
      Serializing comes first; then the open, the length, the payload and the flush, any of
      which can fail, leaving whatever part of the record was already written. */
  function AppendOutcome(log: Option<Bytes>, encoded: Result<Bytes, string>, io: WriteIo)
    : (out: (Result<(), BufferError>, Option<Bytes>))
    ensures out.0.Ok? <==> encoded.Ok? && io.WriteDone?
    ensures out.1 == log || (out.1.Some? && log.GetOr([]) <= out.1.value)
  {
    match encoded
    case Err(e) => (Err(Serialization(e)), log)
    case Ok(p) =>
      var f := Frame(p);
      match io
      case WriteDone => (Ok(()), Some(log.GetOr([]) + f))
      case OpenFails(m) => (Err(Io(m)), log)
      case WriteFails(m, k) => (Err(Io(m)), Some(log.GetOr([]) + Written(f, k)))
  }

  /** `peek_chunk` when the file system may fail: each fault is an I/O error exactly when
      the call reaches the step that fails. */
  function PeekChunkIo<T>(log: Option<Bytes>, cursor: Option<Bytes>, maxItems: nat,
                          deserialize: Bytes -> Result<T, string>, io: ReadIo)
    : (r: Result<(nat, seq<T>), BufferError>)
    ensures io.ReadDone? ==> r == PeekChunkOf(log, cursor, maxItems, deserialize)
    ensures log.None? && cursor.None? ==> r == Ok((0, []))
  {
    match io
    case ReadDone => PeekChunkOf(log, cursor, maxItems, deserialize)
    case CursorFails(m) => if cursor.Some? then Err(Io(m)) else PeekChunkOf(log, cursor, maxItems, deserialize)
    case LogFails(m) => if log.Some? then Err(Io(m)) else PeekChunkOf(log, cursor, maxItems, deserialize)
    case SeekFails(m) =>
      if log.Some? && CommittedOffsetOf(cursor) < |log.value| then Err(Io(m))
      else PeekChunkOf(log, cursor, maxItems, deserialize)
  }

  class DiskBuffer<T> {
    var log: Option<Bytes>
    var cursor: Option<Bytes>
    const serialize: T -> Result<Bytes, string>
    const deserialize: Bytes -> Result<T, string>

    /** `DiskBuffer::new` on a directory that holds the given files. */
    constructor (log: Option<Bytes>, cursor: Option<Bytes>,
                 serialize: T -> Result<Bytes, string>, deserialize: Bytes -> Result<T, string>)
      ensures this.log == log && this.cursor == cursor
      ensures this.serialize == serialize && this.deserialize == deserialize
    {
      this.log := log;
      this.cursor := cursor;
      this.serialize := serialize;
      this.deserialize := deserialize;
    }

    /** `append`: the record goes at the end of the log, creating the log if needed;
        `io` is what the file system does. */
    method Append(item: T, io: WriteIo) returns (r: Result<(), BufferError>)
      modifies this
      ensures cursor == old(cursor)
      ensures (r, log) == AppendOutcome(old(log), serialize(item), io)
      ensures serialize(item).Err? ==> r == Err(Serialization(serialize(item).error)) && log == old(log)
      ensures serialize(item).Ok? && io.WriteDone? ==>
                r == Ok(()) && log == Some(old(log).GetOr([]) + Frame(serialize(item).value))
      ensures serialize(item).Ok? && io.OpenFails? ==> r == Err(Io(io.message)) && log == old(log)
      ensures serialize(item).Ok? && io.WriteFails? ==>
                r == Err(Io(io.message)) &&
                log == Some(old(log).GetOr([]) + Written(Frame(serialize(item).value), io.written))
    {
      var encoded := serialize(item);
      if encoded.Err? {
        return Err(Serialization(encoded.error));
      }
      if io.OpenFails? {
        return Err(Io(io.message));
      }
      var serialized := encoded.value;
      var len := |serialized| % U32_LIMIT;
      var file := log.GetOr([]);
      var framed := LeBytes(len, 4) + serialized;
      assert framed == Frame(serialized);
      if io.WriteFails? {
        log := Some(file + Written(framed, io.written));
        return Err(Io(io.message));
      }
      log := Some(file + framed);
      r := Ok(());
    }

    /** `get_committed_offset`. */
    function CommittedOffset(): nat
      reads this
    {
      CommittedOffsetOf(cursor)
    }

    /** `get_uncommitted_size`. */
    function UncommittedSize(): nat
      reads this
    {
      UncommittedSizeOf(log, cursor)
    }

    /** `peek_chunk`: reads without writing anything; `io` is what the file system does. */
    method PeekChunk(maxItems: nat, io: ReadIo) returns (r: Result<(nat, seq<T>), BufferError>)
      ensures r == PeekChunkIo(log, cursor, maxItems, deserialize, io)
    {
      if io.CursorFails? && cursor.Some? {
        return Err(Io(io.message));
      }
      var start := CommittedOffset();
      var current: nat := start;
      var items: seq<T> := [];
      if log.None? {
        return Ok((start, items));
      }
      if io.LogFails? {
        return Err(Io(io.message));
      }
      var file := log.value;
      var fileLen := |file|;
      if start >= fileLen {
        return Ok((start, items));
      }
      if io.SeekFails? {
        return Err(Io(io.message));
      }
      var i := 0;
      assert Prepend(items, PeekFrom(file, current, maxItems, deserialize)) == PeekFrom(file, start, maxItems, deserialize) by {
        var x := PeekFrom(file, current, maxItems, deserialize);
        if x.Ok? {
          assert items + x.value.1 == x.value.1;
        }
      }
      while i < maxItems
        invariant 0 <= i <= maxItems
        invariant PeekFrom(file, start, maxItems, deserialize) ==
                  Prepend(items, PeekFrom(file, current, maxItems - i, deserialize))
        decreases maxItems - i
      {
        if current >= fileLen {
          break;
        }
        if current + 4 > fileLen {
          break;
        }
        var len := LeValue(file[current..current + 4]);
        if current + 4 + len > fileLen {
          break;
        }
        var item := deserialize(file[current + 4..current + 4 + len]);
        if item.Err? {
          return Err(Serialization(item.error));
        }
        PrependPrepend(items, [item.value], PeekFrom(file, current + 4 + len, maxItems - i - 1, deserialize));
        items := items + [item.value];
        current := current + 4 + len;
        i := i + 1;
      }
      assert items + [] == items;
      r := Ok((current, items));
    }

    /** `commit_offset`: the cursor file is opened truncated and overwritten with the
        offset; `io` is what the file system does. */
    method CommitOffset(offset: nat, io: WriteIo) returns (r: Result<(), BufferError>)
      requires offset < U64_LIMIT
      modifies this
      ensures log == old(log)
      ensures r.Ok? <==> io.WriteDone?
      ensures io.WriteDone? ==> cursor == Some(LeBytes(offset, 8)) && CommittedOffset() == offset
      ensures io.OpenFails? ==> r == Err(Io(io.message)) && cursor == old(cursor)
      ensures io.WriteFails? ==>
                r == Err(Io(io.message)) && cursor == Some(Written(LeBytes(offset, 8), io.written))
    {
      match io {
        case OpenFails(m) =>
          return Err(Io(m));
        case WriteFails(m, k) =>
          cursor := Some(Written(LeBytes(offset, 8), k));
          return Err(Io(m));
        case WriteDone =>
          cursor := Some(LeBytes(offset, 8));
          CommittedAfterCommit(offset);
          return Ok(());
      }
    }
  }

  /** A committed offset reads back as itself. */
  lemma CommittedAfterCommit(offset: nat)
    requires offset < U64_LIMIT
    ensures CommittedOffsetOf(Some(LeBytes(offset, 8))) == offset
  {
    Pow256Values();
    LeRoundTripSmall(offset, 8);
    assert LeBytes(offset, 8)[..8] == LeBytes(offset, 8);
  }

  /** `log` holds the bytes `b` from offset `c` on. */
  predicate HoldsAt(log: Bytes, c: nat, b: Bytes) {
    c + |b| <= |log| && log[c..c + |b|] == b
  }

  /** The record of a payload is read back as the payload's item. */
  lemma PeekFrame<T>(log: Bytes, c: nat, payload: Bytes, k: nat, deserialize: Bytes -> Result<T, string>, item: T)
    requires HoldsAt(log, c, Frame(payload))
    requires |payload| < U32_LIMIT && deserialize(payload) == Ok(item)
    ensures PeekFrom(log, c, k + 1, deserialize) ==
            Prepend([item], PeekFrom(log, c + 4 + |payload|, k, deserialize))
  {
    var f := Frame(payload);
    assert log[c..c + 4] == f[..4] == LeBytes(|payload|, 4);
    Pow256Values();
    LeRoundTripSmall(|payload|, 4);
    assert log[c + 4..c + 4 + |payload|] == f[4..] == payload;
  }

  lemma HoldsAtSplit(log: Bytes, c: nat, a: Bytes, b: Bytes)
    requires HoldsAt(log, c, a + b)
    ensures HoldsAt(log, c, a) && HoldsAt(log, c + |a|, b)
  {
    assert log[c..c + |a|] == (a + b)[..|a|];
    assert log[c + |a|..c + |a| + |b|] == (a + b)[|a|..];
  }

  /** Each payload is a record-sized byte string that deserializes to its item. */
  ghost predicate Decodes<T>(payloads: seq<Bytes>, items: seq<T>, deserialize: Bytes -> Result<T, string>) {
    |items| == |payloads| &&
    forall i :: 0 <= i < |payloads| ==> |payloads[i]| < U32_LIMIT && deserialize(payloads[i]) == Ok(items[i])
  }

  lemma DecodesTail<T>(payloads: seq<Bytes>, items: seq<T>, deserialize: Bytes -> Result<T, string>)
    requires Decodes(payloads, items, deserialize) && payloads != []
    ensures Decodes(payloads[1..], items[1..], deserialize)
    ensures |payloads[0]| < U32_LIMIT && deserialize(payloads[0]) == Ok(items[0])
  {
    forall i | 0 <= i < |payloads[1..]|
      ensures |payloads[1..][i]| < U32_LIMIT && deserialize(payloads[1..][i]) == Ok(items[1..][i])
    {
      assert payloads[1..][i] == payloads[i + 1];
    }
  }

  /** Records written one after another are read back in order, however the log
      continues after them. */
  lemma {:induction false} PeekFrames<T>(log: Bytes, c: nat, payloads: seq<Bytes>, k: nat,
                                          deserialize: Bytes -> Result<T, string>, items: seq<T>)
    requires HoldsAt(log, c, Frames(payloads))
    requires Decodes(payloads, items, deserialize) && |payloads| <= k
    ensures PeekFrom(log, c, k, deserialize) ==
            Prepend(items, PeekFrom(log, c + |Frames(payloads)|, k - |payloads|, deserialize))
    decreases |payloads|
  {
    if payloads == [] {
      PrependNothing(PeekFrom(log, c, k, deserialize));
    } else {
      var tail := payloads[1..];
      var c' := c + 4 + |payloads[0]|;
      PeekFirst(log, c, payloads, k, deserialize, items);
      PeekFrames(log, c', tail, k - 1, deserialize, items[1..]);
      PeekChain(PeekFrom(log, c, k, deserialize), PeekFrom(log, c', k - 1, deserialize),
                PeekFrom(log, c + |Frames(payloads)|, k - |payloads|, deserialize), items);
    }
  }

  /** The first record of a run is read back, and the rest of the run follows it. */
  lemma PeekFirst<T>(log: Bytes, c: nat, payloads: seq<Bytes>, k: nat,
                     deserialize: Bytes -> Result<T, string>, items: seq<T>)
    requires HoldsAt(log, c, Frames(payloads))
    requires Decodes(payloads, items, deserialize) && 1 <= |payloads| <= k
    ensures HoldsAt(log, c + 4 + |payloads[0]|, Frames(payloads[1..]))
    ensures Decodes(payloads[1..], items[1..], deserialize)
    ensures c + 4 + |payloads[0]| + |Frames(payloads[1..])| == c + |Frames(payloads)|
    ensures PeekFrom(log, c, k, deserialize) ==
            Prepend([items[0]], PeekFrom(log, c + 4 + |payloads[0]|, k - 1, deserialize))
  {
    var tail := payloads[1..];
    assert Frames(payloads) == Frame(payloads[0]) + Frames(tail);
    HoldsAtSplit(log, c, Frame(payloads[0]), Frames(tail));
    DecodesTail(payloads, items, deserialize);
    PeekFrame(log, c, payloads[0], k - 1, deserialize, items[0]);
  }

  lemma PrependNothing<T>(r: Result<(nat, seq<T>), BufferError>)
    ensures Prepend([], r) == r
  {
    if r.Ok? {
      assert [] + r.value.1 == r.value.1;
    }
  }

  lemma PeekChain<T>(r0: Result<(nat, seq<T>), BufferError>, r1: Result<(nat, seq<T>), BufferError>,
                     r2: Result<(nat, seq<T>), BufferError>, items: seq<T>)
    requires items != [] && r0 == Prepend([items[0]], r1) && r1 == Prepend(items[1..], r2)
    ensures r0 == Prepend(items, r2)
  {
    PrependPrepend([items[0]], items[1..], r2);
    assert [items[0]] + items[1..] == items;
  }

  /** An incomplete record at the end of the log ends the peek without an error. */
  lemma PeekTruncatedTail<T>(log: Bytes, c: nat, k: nat, deserialize: Bytes -> Result<T, string>)
    requires c <= |log|
    requires |log| - c < 4 || c + 4 + LeValue(log[c..c + 4]) > |log|
    ensures PeekFrom(log, c, k, deserialize) == Ok((c, []))
  {
  }

  /** The round trip the buffer exists for: with a log of whole records and no cursor,
      a peek of at least as many items returns every item and the log's length; after
      committing that offset nothing is uncommitted and a peek is empty; a record
      appended then is the only item the next peek returns. */
  lemma PeekCommitAppend<T>(payloads: seq<Bytes>, items: seq<T>, k: nat, p: Bytes, item: T,
                            deserialize: Bytes -> Result<T, string>)
    requires Decodes(payloads, items, deserialize) && |payloads| <= k && k >= 1
    requires |Frames(payloads)| < U64_LIMIT
    requires |p| < U32_LIMIT && deserialize(p) == Ok(item)
    ensures var log := Frames(payloads);
      var cursor := Some(LeBytes(|log|, 8));
      PeekChunkOf(Some(log), None, k, deserialize) == Ok((|log|, items)) &&
      UncommittedSizeOf(Some(log), cursor) == 0 &&
      PeekChunkOf(Some(log), cursor, k, deserialize) == Ok((|log|, [])) &&
      PeekChunkOf(Some(log + Frame(p)), cursor, k, deserialize) == Ok((|log| + 4 + |p|, [item]))
  {
    var log := Frames(payloads);
    PeekWholeLog(payloads, items, k, deserialize);
    CommittedAfterCommit(|log|);
    PeekAppended(log, Some(LeBytes(|log|, 8)), p, item, k, deserialize);
  }

  /** Without a cursor, a peek of a log of whole records returns every item. */
  lemma PeekWholeLog<T>(payloads: seq<Bytes>, items: seq<T>, k: nat, deserialize: Bytes -> Result<T, string>)
    requires Decodes(payloads, items, deserialize) && |payloads| <= k
    ensures PeekChunkOf(Some(Frames(payloads)), None, k, deserialize) == Ok((|Frames(payloads)|, items))
  {
    var log := Frames(payloads);
    assert HoldsAt(log, 0, log) by { assert log[0..|log|] == log; }
    PeekFrames(log, 0, payloads, k, deserialize, items);
    assert items + [] == items;
  }

  /** With the cursor at the end of `log`, a record appended is the only item a peek returns. */
  lemma PeekAppended<T>(log: Bytes, cursor: Option<Bytes>, p: Bytes, item: T, k: nat,
                        deserialize: Bytes -> Result<T, string>)
    requires CommittedOffsetOf(cursor) == |log| && k >= 1
    requires |p| < U32_LIMIT && deserialize(p) == Ok(item)
    ensures PeekChunkOf(Some(log + Frame(p)), cursor, k, deserialize) == Ok((|log| + 4 + |p|, [item]))
  {
    var log' := log + Frame(p);
    HoldsAtEnd(log, Frame(p));
    PeekFrame(log', |log|, p, k - 1, deserialize, item);
    PeekAtEnd(log', |log'|, k - 1, deserialize);
    assert [item] + [] == [item];
    PeekChunkAt(log', cursor, k, deserialize);
  }

  lemma HoldsAtEnd(a: Bytes, b: Bytes)
    ensures HoldsAt(a + b, |a|, b)
  {
    assert (a + b)[|a|..|a| + |b|] == b;
  }

  lemma PeekAtEnd<T>(log: Bytes, c: nat, k: nat, deserialize: Bytes -> Result<T, string>)
    requires c >= |log|
    ensures PeekFrom(log, c, k, deserialize) == Ok((c, []))
  {
  }

  lemma PeekChunkAt<T>(log: Bytes, cursor: Option<Bytes>, k: nat, deserialize: Bytes -> Result<T, string>)
    requires CommittedOffsetOf(cursor) < |log|
    ensures PeekChunkOf(Some(log), cursor, k, deserialize) == PeekFrom(log, CommittedOffsetOf(cursor), k, deserialize)
  {
  }

  /** A cursor write that fails before all eight bytes are in leaves a cursor file shorter
      than eight bytes, which reads as offset 0: the whole log is delivered again. A
      failure in the flush alone leaves the new offset. */
  lemma TornCursorRestarts(offset: nat, k: nat)
    requires offset < U64_LIMIT
    ensures k < 8 ==> CommittedOffsetOf(Some(Written(LeBytes(offset, 8), k))) == 0
    ensures k >= 8 ==> CommittedOffsetOf(Some(Written(LeBytes(offset, 8), k))) == offset
  {
    if k >= 8 {
      CommittedAfterCommit(offset);
    }
  }

  /** A failed append that wrote only the length leaves a record whose payload is still to
      come: the next record appended is then read as that payload. With the first payload
      as long as the next record, one peek from the start returns a single item decoded
      from the next record's length and payload, and the next item itself is never seen. */
  lemma TornRecordSwallowsNext<T>(p: Bytes, q: Bytes, k: nat, deserialize: Bytes -> Result<T, string>, x: T)
    requires |p| == 4 + |q| && |q| < U32_LIMIT - 4
    requires deserialize(Frame(q)) == Ok(x) && k >= 1
    ensures var torn := AppendOutcome(None, Ok(p), WriteFails("", 4)).1;
      var log := AppendOutcome(torn, Ok(q), WriteDone).1;
      log == Some(Frame(p)[..4] + Frame(q)) &&
      PeekChunkOf(log, None, k, deserialize) == Ok((|log.value|, [x]))
  {
    var torn := AppendOutcome(None, Ok(p), WriteFails("", 4)).1;
    assert torn == Some(Frame(p)[..4]) by {
      assert [] + Written(Frame(p), 4) == Frame(p)[..4];
    }
    var log := Frame(p)[..4] + Frame(q);
    assert HoldsAt(log, 0, Frame(Frame(q))) by {
      assert Frame(Frame(q)) == LeBytes(|Frame(q)| % U32_LIMIT, 4) + Frame(q);
      assert Frame(p)[..4] == LeBytes(|p| % U32_LIMIT, 4);
      assert log == Frame(Frame(q));
      assert log[0..|log|] == log;
    }
    PeekFrame(log, 0, Frame(q), k - 1, deserialize, x);
    PeekAtEnd(log, |log|, k - 1, deserialize);
    assert [x] + [] == [x];
  }
}
