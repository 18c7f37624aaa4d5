# lifelog core, modelled in Dafny

lifelog is a personal recording system. Collectors on each device capture what happens
there: shell commands, browser visits, the window in focus, the clipboard and the mouse
position. Each collector appends its frames to a local write-ahead disk buffer. The
collector uploads the buffer in chunks. The server validates every chunk's offset and
hash, keeps the bytes in a content-addressed store, and indexes the frames under their
data origin. The server also serves queries: plain searches and LLQL, its JSON query
language. Query results can be replayed as steps over screen frames, with the context
records that fall near each step.

This project models the sequential logic under that plumbing and proves what it promises:

- **Upload protocol:** the chunk offset validator, the ingester, the disk buffer and the
  content-addressed store.
- **Temporal algebra:** half-open intervals and WITHIN, replay steps and the context sweep,
  the DURING executor's interval merge and intersection, and clock-skew estimation.
- **Naming and queries:** data origins and their table names, the LLQL front end, the
  planner's SurrealQL compiler, the search clause builders, the configuration validators,
  the table-name guard, and the server's scheduling policy and collector registry.
- **Collectors:** the shell-history parsers and cursor, the Chrome-time conversions and
  cursor, the window-activity backends, the `xprop` parser and focus spans, clipboard
  normalisation, truncation and de-duplication, and mouse change detection.
- **Test harness:** the fault-injection controller and the deterministic chunk generator.
- **Serialisers and tools:** the timestamp serde adapter, the TypeScript and Protobuf
  generators of the data-modalities build script, the `~/` expander and `timestamp_to_epoch`,
  and the two Python scripts (time-lapse selection and the `.type.json` clean-up).

Conventions used throughout:

- **Time:** a `DateTime<Utc>` is an integer count of nanoseconds since the Unix epoch, and
  a `chrono::Duration` is an integer count of nanoseconds. Whole-unit getters truncate
  toward zero, as chrono's do. chrono's range is taken to be years -262144 to 262143.
- **Foreign functions as parameters:** SHA-256, bincode, serde_json decoding, RFC 3339
  formatting, `f64` formatting, time zone localisation, the clock, UUID generation, the
  seeded ChaCha8 generator, the database and external commands are all function
  parameters. No axiom is assumed about any of them. Where a call reads the clock more
  than once, each read has its own parameter, or the clock is a function from the number
  of the read to the instant it returns.
- **Writes that can fail:** in the disk buffer, the content store and the browser-history
  cursor, the outcome of each file operation is a parameter. In the buffer and the cursor
  a failed write may have put out a prefix of its bytes.
- **Files:** a file is a byte sequence, or `None` when it does not exist.
- **State:** code that changes state in place is a class with those fields, and each
  method is proved against a specification function. Examples: the offset validator, the
  disk buffer, the content store, the fault controller and the collector loops.

Each module's header comment says what it takes as a parameter.

## Model

| member | source | states |
|---|---|---|
| Chunk.Validate | common/utils/src/chunk.rs:38-94 | an empty chunk is `EmptyChunk` before any hash is taken; a wrong declared hash is `HashMismatch(declared, actual)`; a chunk is accepted exactly when it is non-empty, carries its true digest and sits at the expected offset (or, under Resume, at the allowed offset); an acceptance returns `offset + len`, which becomes the next offset; every error leaves the next offset unchanged; offset errors are `OffsetGap` above the expected offset and `OffsetOverlap` below it |
| Chunk.ChunkOffsetValidator.constructor | common/utils/src/chunk.rs:28-32 | a new validator expects the start offset |
| Chunk.ChunkOffsetValidator.ValidateChunk | common/utils/src/chunk.rs:38-94 | the result and the new `next_offset` are those of `Validate` on the old `next_offset` |
| Chunk.Sequential | common/utils/src/chunk.rs:189-201 | the property test's submissions: one per chunk, each with its true digest, each at the offset where the previous one ended, adding up to the chunks' total length |
| Chunk.Run | common/utils/src/chunk.rs:189-201 | a run of submissions yields one result per submission |
| Chunk.ContiguousAlwaysAdvances | common/utils/src/chunk.rs:189-201 | non-empty chunks with true digests at cumulative offsets are all accepted, under either policy, each returning the offset where it ends, and the validator ends at start plus the total length |
| Chunk.SequentialAlwaysAdvances | common/utils/src/chunk.rs:189-201 | the property test's sequence of non-empty chunks is accepted throughout and ends at the total length |
| Chunk.ResumeRetransmit | common/utils/src/chunk.rs:237-247 | after a chunk is accepted, retransmitting it under Resume with its own offset as the allowed offset is accepted again with the same next offset |
| Ingest.SetBackend.constructor | common/utils/src/ingest.rs:129-136 | the mock backend starts with nothing persisted or indexed; `shouldFail` is the failing mock's switch |
| Ingest.SetBackend.PersistMetadata | common/utils/src/ingest.rs:140-157 | a healthy backend adds the chunk's identity to a set, so repeating it changes nothing; a failing one reports the failure and records nothing; the indexed set is untouched |
| Ingest.SetBackend.IsIndexed | common/utils/src/ingest.rs:159-169 | a chunk is indexed exactly when its identity has been marked |
| Ingest.SetBackend.MarkIndexed | common/utils/src/ingest.rs:212-219 | marking adds one identity to the indexed set and leaves the persisted records alone |
| Ingest.ChunkIngester.constructor | common/utils/src/ingest.rs:47-63 | the ingester holds the given backend and store, serves the given stream identity and owns a fresh validator expecting the start offset |
| Ingest.ChunkIngester.ApplyChunk | common/utils/src/ingest.rs:67-102 | result and new state (validator offset, stored files, persisted records) are those of `Apply`: validate under Resume with the chunk's own offset, then store the bytes, then persist the metadata, stopping at the first failure |
| Ingest.ChunkIngester.IsChunkIndexed | common/utils/src/ingest.rs:105-109 | asks the backend about the ingester's own collector, stream and session at the given offset |
| Ingest.ApplyNeverOffsetError | common/utils/src/ingest.rs:74-81 | a validation error is only ever `EmptyChunk` or `HashMismatch`; a good chunk always moves the validator to `offset + len`; a success returns `offset + len` |
| Ingest.ValidationFailureUntouched | common/utils/src/ingest.rs:74-86 | an empty chunk or a wrong hash leaves the whole state (validator, store, records) unchanged and is reported as the validation error |
| Ingest.BackendFailurePropagated | common/utils/src/ingest.rs:263-306 | with a failing backend a good chunk fails with `Backend("simulated backend failure")`, nothing is persisted, while the validator has advanced and the blob is stored |
| Ingest.ReapplyIdempotent | common/utils/src/ingest.rs:177-196 | applying the same accepted chunk a second time gives the same result and the same state, with exactly one record for its identity |
| Ingest.ApplyAll | common/utils/src/ingest.rs:230-258 | a run of submissions yields one result per submission |
| Ingest.ApplyCumulative | common/utils/src/ingest.rs:230-258 | chunks at cumulative offsets all succeed returning the running total, the validator ends at start plus the total length, and each leaves its own record (as many records as chunks from an empty backend) |
| Ingest.ApplyFirst | common/utils/src/ingest.rs:74-101 | a good submission at the expected offset is accepted, advances the validator by its length and adds its record |
| Ingest.IdsAfter | common/utils/src/ingest.rs:250-256 | submissions at cumulative offsets have distinct identities, all at or after the start, so their number of records equals their number |
| Buffer.Frame | common/utils/src/buffer.rs:49-64 | a record is four length bytes (the payload length as a little-endian `u32`, truncated as `as u32` does) followed by the payload, so it is four bytes longer than the payload |
| Buffer.CommittedOffsetOf | common/utils/src/buffer.rs:68-84 | 0 when the cursor file is missing or shorter than 8 bytes; otherwise the little-endian `u64` of its first 8 bytes, which is below 2^64 |
| Buffer.UncommittedSizeOf | common/utils/src/buffer.rs:87-107 | 0 without a log; the log length minus the committed offset when the log reaches it; 0 when the cursor lies beyond the log |
| Buffer.PeekFrom | common/utils/src/buffer.rs:112-162 | a peek returns at most `k` items and an offset between the start and the end of the log, never before the start |
| Buffer.DiskBuffer.constructor | common/utils/src/buffer.rs:31-38 | a buffer over a directory holding the given log and cursor files, with the given encoder and decoder |
| Buffer.AppendOutcome | common/utils/src/buffer.rs:49-64 | an append succeeds exactly when the item serializes and the file system does all of it; whatever happens, the log is left alone or the old log is a prefix of the new one |
| Buffer.DiskBuffer.Append | common/utils/src/buffer.rs:49-64 | the result and the new log are `AppendOutcome`'s: a payload that fails to serialize is a Serialization error before the file is opened; a failed open is an I/O error that leaves the log alone; a failed write or flush is an I/O error that leaves the part of the record already written; otherwise the log (created if missing) gains exactly one record at its end; the cursor is never touched |
| Buffer.PeekChunkIo | common/utils/src/buffer.rs:68-129 | a fault of the cursor file, the log file or the seek is an I/O error exactly when the call reaches that step; with no fault the result is `PeekChunkOf`; with neither file a peek returns offset 0 and no item whatever fails |
| Buffer.DiskBuffer.PeekChunk | common/utils/src/buffer.rs:112-162 | the result is `PeekChunkIo` on the current files and the file system's answers, and nothing is written |
| Buffer.DiskBuffer.CommitOffset | common/utils/src/buffer.rs:165-177 | succeeds exactly when the file system does all of it; then the cursor file is the 8 little-endian bytes of the offset and the committed offset reads back as that offset; a failed open is an I/O error that leaves the cursor alone, and a failed write or flush is an I/O error that leaves the bytes already written in the truncated file; the log is never touched |
| Buffer.TornCursorRestarts | common/utils/src/buffer.rs:165-177 | a cursor write that fails before all eight bytes are in makes the committed offset that `get_committed_offset` (lines 68-84) reads back 0, so the whole log is delivered again; one whose flush alone fails leaves the new offset |
| Buffer.TornRecordSwallowsNext | common/utils/src/buffer.rs:49-64 | an append that fails after writing only the length leaves a record waiting for its payload: the next record appended is read as that payload, so a peek (lines 112-162) returns one item decoded from the next record's length and payload and never the next item itself |
| Buffer.CommittedAfterCommit | common/utils/src/buffer.rs:219-231 | a cursor written by `commit_offset` reads back as the same offset |
| Buffer.PeekFrame | common/utils/src/buffer.rs:128-156 | the record of a payload is read back as that payload's item, and the peek goes on right after it |
| Buffer.PeekFrames | common/utils/src/buffer.rs:112-162 | records appended one after another are read back in append order, however the log continues after them, and the offset advances by `4 + len` per record |
| Buffer.PeekFirst | common/utils/src/buffer.rs:128-156 | the first record of a run is read back first and the rest of the run follows it at offset `start + 4 + len` |
| Buffer.PeekTruncatedTail | common/utils/src/buffer.rs:137-151 | fewer than four bytes left, or a length running past the end of the log, ends the peek with no item and no error |
| Buffer.PeekCommitAppend | common/utils/src/buffer.rs:195-245 | with whole records and no cursor a large enough peek returns every item and the log length; after committing that offset nothing is uncommitted and a peek is empty; a record appended then is the only item the next peek returns |
| Buffer.PeekWholeLog | common/utils/src/buffer.rs:209-216 | without a cursor a peek of at least as many items as records returns all of them and the log length |
| Buffer.PeekAppended | common/utils/src/buffer.rs:237-245 | with the cursor at the end of the log, a record appended is the only item a peek returns, and the offset moves past it |
| Buffer.PeekAtEnd | common/utils/src/buffer.rs:120-126 | a peek from the end of the log returns no item and leaves the offset where it was |
| Buffer.PeekChunkAt | common/utils/src/buffer.rs:112-126 | with the cursor inside the log, `peek_chunk` reads from the committed offset |
| Cas.PathForHash | common/utils/src/cas.rs:61-67 | accepted exactly when the hash has 64 characters, all ASCII hex digits; then the path is `root/hash[0..2]/hash[2..]`; otherwise `InvalidHash(hash)` |
| Cas.DigestHasPath | common/utils/src/cas.rs:70-74 | every lowercase 64-digit digest the hasher produces is a hash the store accepts |
| Cas.PathForHashInjective | common/utils/src/cas.rs:65-67 | distinct valid hashes are stored at distinct paths |
| Cas.PutThenGet | common/utils/src/cas.rs:25-49 | a successful put returns the digest of the bytes, a valid hash, and afterwards its blob exists: a new blob holds exactly the bytes, an existing one is left as it was |
| Cas.PutTwice | common/utils/src/cas.rs:82-91 | putting the same bytes a second time returns the same hash and changes no file |
| Cas.PutFailure | common/utils/src/cas.rs:25-49 | a failed put is `InvalidHash` exactly when the digest is not a valid hash; it never creates the blob and changes no file except the temporary file a failed rename leaves behind |
| Cas.TmpPathDiffers | common/utils/src/cas.rs:38 | the temporary file is never the blob path itself |
| Cas.FsCas.constructor | common/utils/src/cas.rs:21-23 | a store rooted at the given directory over the given files |
| Cas.FsCas.Get | common/utils/src/cas.rs:51-54 | an invalid hash is `InvalidHash`, not an empty result; a valid one succeeds exactly when its blob exists, returning the stored bytes |
| Cas.FsCas.Contains | common/utils/src/cas.rs:56-59 | an invalid hash is `InvalidHash`, not `false`; a valid one answers whether its blob exists |
| Cas.FsCas.Put | common/utils/src/cas.rs:25-49 | result and files afterwards are those of `PutOutcome` for the filesystem's answers |
| Correlation.New | common/lifelog-core/src/correlation.rs:10-16 | an interval is built exactly when start < end, and then holds those two instants |
| Correlation.OverlapsIffCommonPoint | common/lifelog-core/src/correlation.rs:18-24 | two half-open intervals overlap exactly when some instant lies in both; the later start is such an instant |
| Correlation.OverlapsSymmetric | common/lifelog-core/src/correlation.rs:18-20 | `overlaps` does not depend on the order of its arguments |
| Correlation.TouchingDoNotOverlap | common/lifelog-core/src/correlation.rs:89-95 | an interval ending where the other starts does not overlap it (the end point is excluded) |
| Correlation.WithinSymmetric | common/lifelog-core/src/correlation.rs:28-31 | `within(a, b, d)` equals `within(b, a, d)` |
| Correlation.WithinMillis | common/lifelog-core/src/correlation.rs:28-31 | for a whole-millisecond delta, `within` holds exactly when the true distance is below the delta plus one millisecond, since the distance is truncated to whole milliseconds |
| Correlation.WithinExample | common/lifelog-core/src/correlation.rs:50-55 | 29 seconds apart is within 30 seconds and not within 10 |
| Correlation.WithinIntervalWidened | common/lifelog-core/src/correlation.rs:34-41 | for a non-empty interval and a non-negative delta, `within_interval` is membership in the closed interval widened by the delta on both sides |
| Correlation.WithinIntervalNegative | common/lifelog-core/src/correlation.rs:34-41 | with a negative delta only the points of the interval itself qualify |
| Correlation.WithinIntervalExample | common/lifelog-core/src/correlation.rs:76-86 | the test's ten-second interval with a five-second delta: 5 s before the start and 5 s after the end are within; 6 s before and 6 s after are not |
| Replay.BuildReplaySteps | common/lifelog-core/src/replay.rs:12-51 | the steps returned are `ReplaySteps` of the frame times: sort, de-duplicate, then build the steps |
| Replay.StepsFromTimes | common/lifelog-core/src/replay.rs:16-50 | the match on the number of distinct times and the `windows(2)` loop compute `StepsOf` the normalised times |
| Replay.NormalizeIncreasing | common/lifelog-core/src/replay.rs:13-14 | sorting then de-duplicating gives strictly increasing times holding exactly the instants of the input |
| Replay.NormalizeOfIncreasing | common/lifelog-core/src/replay.rs:13-14 | times already strictly increasing are left as they are |
| Replay.IncreasingUnique | common/lifelog-core/src/replay.rs:13-14 | two strictly increasing sequences with the same instants are equal, so normalising depends only on the set of instants |
| Replay.PairStepsIncreasing | common/lifelog-core/src/replay.rs:28-34 | over strictly increasing times every consecutive pair `[t_i, t_{i+1})` becomes a step, one per pair, in order |
| Replay.StepsOfShape | common/lifelog-core/src/replay.rs:16-50 | over `t_0 < … < t_k`: one step per consecutive pair, followed by `[t_k, window_end)` exactly when `t_k < window_end` (a single time gives only that step, or none) |
| Replay.ReplayStepsShape | common/lifelog-core/src/replay.rs:12-51 | no frames give no steps; otherwise the steps have the shape above over the sorted distinct frame times |
| Replay.StepsOfWellFormed | common/lifelog-core/src/replay.rs:27-46 | over strictly increasing times every step has start < end, starts at a time, ends at a time or at the window end, and ends where the next step starts |
| Replay.ReplayStepsWellFormed | common/lifelog-core/src/replay.rs:12-51 | every step returned is non-empty, starts at a frame time, ends at a frame time or the window end, and the steps are contiguous |
| Replay.ReplayStepsSetDetermined | common/lifelog-core/src/replay.rs:13-14 | the steps depend only on the set of frame times, not on their order or repeats |
| Replay.ReplayStepsThreeFrames | common/lifelog-core/src/replay.rs:58-72 | three increasing frames with the window ending at the last give the two steps `[t0, t1)`, `[t1, t2)` |
| Replay.ReplayStepsOneFrame | common/lifelog-core/src/replay.rs:74-81 | a single frame before the window end gives the one step `[t0, window_end)` |
| ServerReplay.DtKeyInjective | server/src/replay.rs:20-22 | `(seconds, subsec nanos)` identifies an instant: equal keys mean equal instants |
| ServerReplay.BuildReplayStepsForScreen | server/src/replay.rs:24-54 | the steps returned are `ScreenSteps`: sort frames by time, index them, build replay steps, key each by the frame at its start |
| ServerReplay.IndexFrames | server/src/replay.rs:31-36 | the loop collects the sorted frames' times in order and the time-to-uuid map after inserting every frame |
| ServerReplay.KeySteps | server/src/replay.rs:38-53 | the `filter_map` over the replay steps: a step is kept, with empty context keys, when its start has a uuid in the map that parses |
| ServerReplay.UuidMapIsLast | server/src/replay.rs:31-36 | a frame time is in the map exactly when some frame has it, and it maps to the uuid of the last frame inserted at that time |
| ServerReplay.LastAtSorted | server/src/replay.rs:29 | since the sort is stable, the frame winning a time's map slot is the last frame at that time in the caller's order |
| ServerReplay.ScreenStepsReference | server/src/replay.rs:24-54 | without the sort and the map: the replay steps of the frame times, each keyed by the last frame (in the caller's order) at its start and dropped when that uuid does not parse |
| ServerReplay.RefStepsSound | server/src/replay.rs:41-52 | every screen step comes from a replay step, carries the screen origin and the parsed uuid of the last frame at its start, and has no context keys |
| ServerReplay.RefStepsNoDrop | server/src/replay.rs:41-52 | when every frame uuid parses and every step starts at a frame time, no step is dropped |
| ServerReplay.LastAtIsFrame | server/src/replay.rs:31-36 | a time has a last frame exactly when it is a frame time, and that frame is one of the inputs |
| ServerReplay.ScreenStepsProperties | server/src/replay.rs:24-54 | the screen steps come from the replay steps of the frame times, keyed by the frames, in order, each non-empty with empty context keys |
| ServerReplay.RecordLeTotalPreorder | server/src/replay.rs:67 | the record order (start, then uuid bytes, then table name) is a total preorder, so the sort is well defined |
| ServerReplay.AssignContextKeys | server/src/replay.rs:56-95 | the steps array afterwards is `Assign` of the old steps: the sweep over the sorted records with its `idx` and `j` counters |
| ServerReplay.StepTurn | server/src/replay.rs:70-94 | one turn of the step loop: a step already holding `max` keys is skipped, any other is filled from the current record index |
| ServerReplay.FillStep | server/src/replay.rs:75-93 | `idx` advances past the records ending before `step.start - pad`, then the `j` loop collects keys of records meeting the padded span until `max` keys are held |
| ServerReplay.SweepStep | server/src/replay.rs:70-94 | one turn of the loop keeps the sweep invariant: the steps so far are done, the rest untouched |
| ServerReplay.SweepDone | server/src/replay.rs:69-94 | the invariant after every step is the specified result |
| ServerReplay.AssignNoOp | server/src/replay.rs:62-64 | no steps, no records or `max_per_step == 0` leave the steps unchanged |
| ServerReplay.MeetingKeysOfPermutation | server/src/replay.rs:67 | sorting the records does not change which keys meet a span |
| ServerReplay.CollectSound | server/src/replay.rs:82-93 | the `j` loop keeps the keys it starts with, adds only keys of records meeting the span, and stops at `max` |
| ServerReplay.AssignSound | server/src/replay.rs:56-95 | every step keeps its span, screen key and existing keys; a full step is untouched; no step exceeds `max`; only keys of records whose `[start, end]` meets `[step.start - pad, step.end + pad]` are added |
| ServerReplay.CollectComplete | server/src/replay.rs:82-93 | over start-sorted records the `j` loop collects exactly the meeting records after `j`, in order, up to `max` |
| ServerReplay.NoneMeetAfter | server/src/replay.rs:83 | in start order, no record from one starting after `s1` on meets `[s0, s1]`, so the loop may stop there |
| ServerReplay.SkipSkips | server/src/replay.rs:78-80 | the records `idx` passes over all end before `s0` |
| ServerReplay.StepComplete | server/src/replay.rs:75-93 | for a step with room, when every record before `idx` ends before its padded span, the sweep gives it its expected keys |
| ServerReplay.AssignFromComplete | server/src/replay.rs:70-94 | over start-ordered steps, the sweep from a valid index gives every step with room its expected keys |
| ServerReplay.HeadComplete | server/src/replay.rs:70-94 | the first step gets what it expects, and the records skipped for it end before the next step's padded span too |
| ServerReplay.AssignComplete | server/src/replay.rs:56-95 | when steps come in start order (as replay steps do), a step with room receives, after its own keys, the keys of every record meeting its padded span, in `(start, uuid, table)` order, up to `max` |
| ServerReplay.AssignExample | server/src/replay.rs:103-143 | the test: two consecutive ten-second steps, no padding, room for ten keys; the record inside the first step goes to it alone and the instant record one second into the second step goes to that step alone |
| Executor.MergeIntervals | server/src/query/executor.rs:71-100 | the loop's output is `Merge`: empty stays empty, otherwise the start-sorted windows normalised, fused and cut off once `max_clauses` is reached |
| Executor.StartLeTotalPreorder | server/src/query/executor.rs:79 | ordering by start is a total preorder, so the stable sort is well defined |
| Executor.MergeRunStays | server/src/query/executor.rs:95-97 | once the loop has left early, the remaining windows change nothing |
| Executor.MergeEmptyIff | server/src/query/executor.rs:75-77 | the merge is empty exactly when its input is |
| Executor.MergeGapped | server/src/query/executor.rs:79-94 | the merged windows are non-empty, sorted, with a strict gap between any two |
| Executor.MergeCovers | server/src/query/executor.rs:79-98 | every merged point lies in some input window (an inverted one counting as its start point); when the output stayed below `max_clauses`, every such point is merged |
| Executor.MergeBound | server/src/query/executor.rs:95-97 | at most `max_clauses` windows, except that a limit of 0 still yields one |
| Executor.MergeInverted | server/src/query/executor.rs:82 | an inverted window `(s, e)` with `e < s` becomes the single point `(s, s)` |
| Executor.MergeExample | server/src/query/executor.rs:79-94 | touching windows fuse; a window after a gap starts a new one |
| Executor.FuseInto | server/src/query/executor.rs:82-93 | one turn of the merge loop: the last merged window is extended when the new one starts inside it and ends later, kept when it ends inside, and the new window is appended after a gap |
| Executor.IntersectIntervals | server/src/query/executor.rs:102-131 | the two-pointer loop computes `Intersect`: emit `(max start, min end)` when non-empty, stop at `max_clauses`, advance the side whose window ends first |
| Executor.IntersectStep | server/src/query/executor.rs:123-127 | advancing the side whose window ends first loses no common point |
| Executor.IntersectSound | server/src/query/executor.rs:111-128 | every point of the intersection lies in a window of both inputs |
| Executor.IntersectGappedComplete | server/src/query/executor.rs:111-128 | on inputs with strict gaps the output has strict gaps and, unless it reached `max_clauses`, covers every common point |
| Executor.IntersectBound | server/src/query/executor.rs:116-121 | at most `max_clauses` windows, except that a limit of 0 still yields one |
| Executor.WidenRowsFilter | server/src/query/executor.rs:158-168 | one window per row with a `t_canonical`, in row order |
| Executor.WidenRowsExample | server/src/query/executor.rs:159-168 | a point row at `t0` with window `w` gives `[t0 - w, t0 + w]`; a row without `t_canonical` is skipped |
| Executor.CollectRows | server/src/query/executor.rs:158-172 | the row loop of one source adds the widened windows of the rows with a `t_canonical`, in order, and stops just after the window that reaches `max_source_intervals` |
| Executor.CollectIntervals | server/src/query/executor.rs:139-179 | the two nested loops compute `CollectTerm`: the sources are queried in order, a failing query is the error, and once `max_source_intervals` windows are collected the window list is cut to that length and no later source is queried |
| Executor.CollectTerm | server/src/query/executor.rs:144-179 | a term that succeeds never holds more than `max_source_intervals` windows |
| Executor.CollectTermFetched | server/src/query/executor.rs:144-179 | when every source query succeeds, the term's windows are the first `max_source_intervals` widened windows of all the rows, in source and row order |
| Executor.LaterSourceNotQueried | server/src/query/executor.rs:170-177 | with a limit of 1, a first source giving one row ends the term with that row's window, although the second source would fail: fetching every source first would be an error |
| Executor.RunTerms | server/src/query/executor.rs:138-186 | the terms' merged windows, one list per term, each non-empty with strict gaps, unless some term gives no window |
| Executor.Execute | server/src/query/executor.rs:12-256 | a table query succeeds exactly when its statement does, with at most one key per returned row, every key of the plan's origin; an unsupported plan is an error |
| Executor.IntersectTermsSound | server/src/query/executor.rs:189-197 | the target windows have strict gaps, are non-empty when there is a term, and every point of them lies in every term's merged windows |
| Executor.IntersectTermsDisjoint | server/src/query/executor.rs:191-196 | two terms whose windows do not meet give no results |
| Executor.TargetSqlOneWindow | server/src/query/executor.rs:204-218 | with one window the target query's time condition is that window's overlap clause, under the `LIMIT 1000` |
| Executor.MergeSubplanKeys | server/src/query/executor.rs:43-56 | the loop keeps the sub-plans' keys in order, dropping any whose `table:uuid` was already seen |
| Executor.PushFirsts | server/src/query/executor.rs:48-53 | the loop over one sub-plan's keys pushes exactly the keys whose `table:uuid` is not yet in `seen`, and `seen` grows by the keys met |
| Executor.FirstsKeys | server/src/query/executor.rs:48-53 | first-seen de-duplication loses no key |
| Executor.FirstsDistinct | server/src/query/executor.rs:48-53 | no key is kept twice, and every kept element comes from the input |
| Executor.FirstsKeepsFirst | server/src/query/executor.rs:48-53 | a key first seen at position `k` keeps the element at `k` |
| Executor.ParsedUuidsMembers | server/src/query/executor.rs:31-40 | the parsed uuids are exactly those of the strings that parse |
| Executor.TableKeys | server/src/query/executor.rs:30-41 | one key per returned uuid that parses, in row order |
| Executor.TargetKeys | server/src/query/executor.rs:238-251 | the target rows' parsed uuids, later duplicates dropped |
| Executor.TargetKeysExample | server/src/query/executor.rs:238-251 | a repeated uuid and a string that is no uuid leave a single key |
| Executor.ExecuteUnsupported | server/src/query/executor.rs:253 | an unsupported plan is the error "Unsupported query plan: " and its message |
| Executor.ExecuteMulti | server/src/query/executor.rs:43-56 | a MultiQuery succeeds only when every sub-plan does; its keys have distinct `table:uuid` strings and are exactly the sub-plans' keys |
| Executor.ExecuteDuring | server/src/query/executor.rs:57-252 | a DURING query returns keys of the target origin with distinct uuids; a first term whose sources give no window ends it with no keys |
| TimeSkew.Median | common/lifelog-core/src/time_skew.rs:81-84 | the element at index `len / 2` of a non-empty sorted list |
| TimeSkew.Ascending | common/lifelog-core/src/time_skew.rs:44 | the sorted list is ascending and a permutation of its input |
| TimeSkew.OffsetsMs | common/lifelog-core/src/time_skew.rs:40-43 | one candidate per sample: backend minus device time in whole milliseconds |
| TimeSkew.AbsDevs | common/lifelog-core/src/time_skew.rs:48-51 | one absolute distance to the median per candidate |
| TimeSkew.Confidence | common/lifelog-core/src/time_skew.rs:56-64 | 0.95 up to a MAD of 50 ms, 0.05 from 5000 ms, and within `[0.05, 0.95]` in between |
| TimeSkew.EstimateSkewEmpty | common/lifelog-core/src/time_skew.rs:32-38 | no samples give offset 0, confidence 0 and quality Unknown |
| TimeSkew.MedianSplits | common/lifelog-core/src/time_skew.rs:81-84 | the median of a sorted list has `len / 2` elements before it that are no larger and the rest no smaller |
| TimeSkew.EstimateSkewMedian | common/lifelog-core/src/time_skew.rs:40-53 | the offset in milliseconds is one of the sampled differences, with `len / 2` of them no larger and the rest no smaller; the MAD is the median of the distances to it |
| TimeSkew.QualityBands | common/lifelog-core/src/time_skew.rs:56-72 | Good exactly up to a MAD of 600 ms, Degraded up to 3075 ms, Unknown beyond; so at most 50 ms is Good and 5000 ms or more is Unknown |
| TimeSkew.ConstantSkew | common/lifelog-core/src/time_skew.rs:19-23 | a device behind by the same number of milliseconds in every sample gets exactly that offset, confidence 0.95 and Good, and `apply` maps each device time onto its backend time |
| TimeSkew.StableExample | common/lifelog-core/src/time_skew.rs:99-114 | the test: a device 5 s behind sampled three times gives offset 5 s, confidence above 0.8, Good, and `apply(d0) == b0` |
| TimeSkew.JitterExample | common/lifelog-core/src/time_skew.rs:116-128 | the test: differences of 5 s, 6 s and 4 s keep the 5 s offset, with confidence below 0.95 and a quality other than Good |
| TimeSkew.SortedUnique | common/lifelog-core/src/time_skew.rs:44 | two ascending sequences with the same elements are equal, so `sort_unstable` on integers is determined |
| Origin.TableParts | common/lifelog-core/src/lib.rs:139-148 | a table name has at least two ':'-separated parts: the device id, then each modality from the device outward |
| Origin.TableNameIsJoin | common/lifelog-core/src/lib.rs:139-148 | the table name is those parts joined with ':': the device id with its colons removed, then the parent chain's modalities, then this modality |
| Origin.DeviceTableName | common/lifelog-core/src/lib.rs:141-143 | a device origin's table name is its device id with every ':' removed, a ':', then the modality |
| Origin.NoColonRejected | common/lifelog-core/src/lib.rs:117-120 | a string with no ':' is `InvalidDataModality` of itself |
| Origin.TwoPartsDevice | common/lifelog-core/src/lib.rs:121-124 | `device:modality` parses to a device origin with that modality |
| Origin.TryFromStringOkIffColon | common/lifelog-core/src/lib.rs:116-137 | a string parses exactly when it contains a ':', at any depth of the recursion |
| Origin.TableNameRoundTrip | common/lifelog-core/src/lib.rs:116-148 | parsing a table name gives back its origin with the device id's colons removed, when no modality contains ':' |
| Origin.TableNameRoundTripExact | common/lifelog-core/src/lib.rs:116-148 | with a colon-free device id as well, parsing the table name gives back the origin itself |
| Origin.PartsRoundTrip | common/lifelog-core/src/lib.rs:125-135 | the recursive case rebuilds the parent from all parts but the last and takes the last as the modality |
| Llql.ParseRfc3339Utc | server/src/query/llql.rs:211-215 | the trimmed text is parsed; a failure is reported as "invalid rfc3339 datetime" naming the untrimmed text and the parser's error |
| Llql.SplitUnitRejoins | server/src/query/llql.rs:225-235 | the number text followed by the chosen unit's suffix is the whole trimmed text |
| Llql.ParseDuration | server/src/query/llql.rs:217-255 | a parsed window is never negative |
| Llql.ParseDurationNotInteger | server/src/query/llql.rs:237-242 | a count that is no integer is rejected with the text of Rust's integer parse error, "invalid digit found in string" |
| Llql.ParseDurationTooLarge | server/src/query/llql.rs:237-242 | a count past the `i64` range is rejected with "number too large to fit in target type" |
| Llql.NumberTextError | server/src/query/llql.rs:237-242 | digits that are no `i64`, with a unit suffix, are rejected with the window, the number text and the parse error's text |
| Llql.ParseDurationRejects | server/src/query/llql.rs:218-235 | an empty or white-space-only window is "duration cannot be empty", and one with no `ms`, `s`, `m` or `h` suffix is an error |
| Llql.ParseDurationSplit | server/src/query/llql.rs:225-253 | a text with a unit suffix and no surrounding white space parses as its number read as an `i64` in that unit, when the number is not negative and chrono takes it for that unit |
| Llql.ParseDurationOfUnits | server/src/query/llql.rs:225-253 | every count chrono takes for the unit, written in decimal with the unit's suffix, parses to that many units; `ms` is tried first, so it means milliseconds, not minutes |
| Decimal.ParseIntErrorIff | server/src/query/llql.rs:237-242 | the parse error is absent exactly when the text parses as an integer in the range |
| Decimal.ParseIntErrorOfNumbers | server/src/query/llql.rs:237-242 | a text that is no number, or a lone sign, is an invalid digit; a number above the `i64` range is too large, and one below it, after `-`, too small |
| Decimal.ScanDigitsNone | server/src/query/llql.rs:237-242 | the digit scan finds no error exactly when every character is a digit and the value stays within the bound |
| Llql.ParseDurationNegative | server/src/query/llql.rs:244-246 | a negative count is rejected even though it is a valid integer |
| Llql.ParseDurationExamples | server/src/query/llql.rs:262-281 | the test: "250ms", "30s", "5m" and "1h" parse to their spans and "10" is an error |
| Llql.TryIntoAst | server/src/query/llql.rs:116-188 | the conversion, with its accumulator loops, computes `Convert`: an empty AND/OR is the whole time line, a window term converts its predicate before parsing its window |
| Llql.WindowTerm | server/src/query/llql.rs:160-186 | WITHIN, DURING and OVERLAPS: the predicate's error first, then the window's, else the windowed node |
| Llql.FoldTerms | server/src/query/llql.rs:125-133 | the AND/OR accumulator loop gives the left fold of the converted terms, stopping at the first error |
| Llql.FoldRest | server/src/query/llql.rs:130-132 | the loop over the remaining terms continues the fold from the first term |
| Llql.FoldOperands | server/src/query/llql.rs:125-150 | the fold succeeds exactly when every term converts, and then it is the left-leaning chain whose operands are the converted terms in list order |
| Llql.FoldFirstError | server/src/query/llql.rs:125-150 | a failing fold reports the error of the first term that fails |
| Llql.ConvertJunction | server/src/query/llql.rs:118-151 | a non-empty AND/OR converts to the fold of its converted terms |
| Llql.TryParseLlql | server/src/query/llql.rs:11-37 | every error is a validation error on the field "query.text" |
| Llql.TryParseLlqlNone | server/src/query/llql.rs:12-23 | the result is `Ok(None)` exactly when there are no text terms or the first, leading white space trimmed, has neither `llql-json:` nor `llql:` |
| Llql.TryParseLlqlDecodes | server/src/query/llql.rs:16-36 | after either prefix the trimmed rest is decoded and the decoded query converted; a conversion failure is a validation error carrying its reason |
| Llql.LlqlBodyOf | server/src/query/llql.rs:16-23 | either prefix at the very start of the first term leaves exactly the rest |
| LlqlExamples.CanonicalExample | server/src/query/llql.rs:283-312 | the test: the canonical query with the `llql:` prefix and a "30s" window becomes `Some` query over the Audio target whose filter is an AND of the two DURING terms |
| LlqlExamples.CanonicalWindow | server/src/query/llql.rs:283-312 | the same for any window that parses |
| LlqlExamples.ConvertDuring | server/src/query/llql.rs:169-177 | a DURING term over a text-contains predicate whose window parses converts to the DURING node with that span |
| Planner.PlanShape | server/src/query/planner.rs:14-31 | a plan is unsupported exactly when the target is ALL; otherwise it is `SELECT uuid FROM` the modality or stream name in backquotes, read back verbatim when the name has no backquote, then ` WHERE `, the compiled filter and `;` |
| Planner.CompileReadsBack | server/src/query/planner.rs:33-87 | a filter of AND, OR, NOT, `=` (strings, integers, booleans) and `~`, whose texts hold no backslash, compiles with `quote_string` as written to `(l) AND (r)`, `(l) OR (r)`, `!(x)`, `field = v` and `field ~ 'text'`, and that text reads back as the same filter and ends where it should; so no two such filters compile alike |
| Planner.ReadableHandled | server/src/query/planner.rs:33-74 | every filter of that fragment is one the compiler has an arm for |
| Planner.ReadValueOf | server/src/query/planner.rs:76-87 | a compiled value reads back: a string quoted by `quote_string`, when it has no backslash, an integer's decimal text, `true`/`false` |
| Planner.ReadEqOf | server/src/query/planner.rs:52-54 | `field = value`, compiled as written, reads back as that equality when a string value has no backslash |
| Planner.ReadContainsOf | server/src/query/planner.rs:55-58 | `field ~ 'text'`, quoted by `quote_string`, reads back as that containment when the text has no backslash |
| Planner.JunctionReadsBack | server/src/query/planner.rs:35-48 | `(l) AND (r)` and `(l) OR (r)` read back as the junction of their operands, compiled as written |
| Planner.QuoteStringEscapes | server/src/query/planner.rs:85-87 | escaping only the single quotes equals the full escaping when the text has no backslash |
| Planner.QuoteStringNoBackslash | server/src/query/planner.rs:85-87 | `quote_string` as written reads back as its text when the text has no backslash |
| Planner.QuoteStringBreaksOut | server/src/query/planner.rs:85-87 | the text `\'` quoted as written is `'\\''`: the literal reads back as a lone backslash and a stray quote is left in the statement |
| Planner.ContainsBreaksOut | server/src/query/planner.rs:55-58 | the compiler as written turns a containment of the text `\'` into `f ~ '\\''`, which reads back as a containment of a lone backslash followed by a stray quote |
| Planner.QuoteReadsBack | server/src/query/planner.rs:85-87 | the corrected quoting, which escapes backslashes too, reads back as its text for every text, and the literal ends where it should |
| SearchQuery.SanitizeEscapes | server/src/query.rs:82-84 | doubling backslashes and then escaping quotes escapes each character on its own |
| SearchQuery.SanitizeReadsBack | server/src/query.rs:82-84 | a sanitised term between single quotes reads back as exactly the term, and the literal ends at the closing quote, so nothing after it is touched |
| SearchQuery.TimeClauseTrue | server/src/query.rs:103-132 | the time clause is "true" exactly when no range has a usable bound; otherwise it is the parenthesised OR of the clauses of the usable ranges |
| SearchQuery.RangeClausesEmpty | server/src/query.rs:108-125 | the `filter_map` keeps no clause exactly when no range has an end that converts |
| SearchQuery.RangeClauseUsable | server/src/query.rs:110-123 | a range has a clause exactly when one of its ends converts; with both ends it compares inclusively on both sides |
| SearchQuery.BothBounds | server/src/query.rs:115-119 | a range with both ends gives `(timestamp >= 'start' AND timestamp <= 'end')` |
| SearchQuery.NegativeNanosDropped | server/src/query.rs:99-101 | a nanosecond field of -1 becomes 4294967295 as `u32`, which no instant accepts, so that bound is dropped |
| SearchQuery.TextClauseChecks | server/src/query.rs:134-163 | no terms give "true"; terms with a modality that has no text fields give "false"; otherwise every sanitised term is checked, case-insensitively, against every field |
| SearchQuery.QuerySqlTable | server/src/query.rs:165-173 | the statement selects `record::id(id)` from the table it was built for, and its condition is the time clause AND the text clause |
| SearchQuery.SearchedOrigins | server/src/query.rs:14-26 | the searched origins are all of them, or those whose display form is in `search_origins` |
| SearchQuery.FilterIn | server/src/query.rs:17-25 | the filter keeps exactly the origins whose display form is named |
| SearchQuery.RunQuery | server/src/query.rs:8-80 | the loop over the searched origins, skipping those without text fields for a text query and stopping at a database error, then the post-filter, computes `ExecuteQuery` |
| SearchQuery.ParseKeys | server/src/query.rs:56-63 | one key of the origin per returned id that parses as a UUID, in order |
| SearchQuery.GatherErrStays | server/src/query.rs:42-54 | a database error at an origin ends the whole search with that error |
| SearchQuery.ExecuteQueryMembers | server/src/query.rs:8-80 | a key is returned exactly when its origin is known, searched, not skipped for lacking text fields, passes the `return_origins` post-filter, and one of the ids returned for its statement parses to the key's UUID; every failure is a database error |
| SearchQuery.YieldsMembers | server/src/query.rs:30-64 | the keys one origin yields are its own, one per returned id that parses |
| Types.ParseUuidProperties | common/lifelog-types/src/lib.rs:26-28 | a UUID's string reads back unchanged; a string of a length no UUID form has reads as the nil UUID |
| Types.ToDtProperties | common/lifelog-types/src/lib.rs:30-41 | a missing timestamp is the epoch, and an instant chrono can represent survives `to_pb_ts` then `to_dt` |
| Types.ToDtOutOfRange | common/lifelog-types/src/lib.rs:30-34 | a negative nanosecond field wraps, as `u32`, to at least 2^31 and gives the minimum date; so does a second count outside chrono's range |
| Types.FrameKeyOf | common/lifelog-types/src/lib.rs:45-59 | the UUID is parsed leniently and the origin strictly; a bad origin is a validation error on the field "origin" |
| Types.KeyRoundTrip | common/lifelog-types/src/lib.rs:45-68 | a frame key whose origin names hold no ':' survives the trip to the wire key and back, and the result's wire key is the one it was read from |
| Types.ToRecord | common/lifelog-types/src/lib.rs:339-356 | the record keeps the frame's uuid, time, size and mime type, stores only the image's byte length with an empty blob hash, and leaves every canonical-time field unset |
| Types.ToRecordExample | common/lifelog-types/src/lib.rs:953-976 | the test: a 1920x1080 frame with three image bytes at 12345 s gives width 1920, an empty blob hash and a blob size of 3 |
| Validate.FirstFailureSpec | common/lifelog-types/src/lib.rs:584-618 | a chain of checks succeeds exactly when every check passes; otherwise it reports the check that fails first |
| Validate.ValidateServer | common/lifelog-types/src/lib.rs:584-618 | success exactly when host, database endpoint, database name and server name are non-empty and the port is in 1..65535 |
| Validate.ValidateServerIsChain | common/lifelog-types/src/lib.rs:584-618 | the server validator reports the first failing check in the order host, port, endpoint, database name, server name |
| Validate.ValidateCollector | common/lifelog-types/src/lib.rs:620-661 | success exactly when id and host are non-empty, the port is in range, an enabled screen has a positive interval and an enabled microphone a non-zero sample rate |
| Validate.ValidateCollectorIsChain | common/lifelog-types/src/lib.rs:620-661 | the collector validator reports the first failing check in source order |
| Validate.CollectorExamples | common/lifelog-types/src/lib.rs:1027-1042 | the test: an empty id is rejected; id "test", host "localhost" and port 8080 with nothing else set pass |
| Validate.ValidateSystemSpec | common/lifelog-types/src/lib.rs:663-679 | a system configuration is valid exactly when its server (if any) and every collector are; when the server passes, a failure is the first failing collector's error with its field written `collectors[<id>].<field>` |
| Validate.CollectorsSpec | common/lifelog-types/src/lib.rs:668-676 | the collector loop passes exactly when every collector validates; otherwise its error is that of the first failing collector, its field prefixed `collectors[<id>].` |
| Validate.ValidateProtoServer | common/lifelog-types/src/validate.rs:12-46 | the proto server configuration gets the same five checks in the same order |
| Validate.ValidateProtoCollector | common/lifelog-types/src/validate.rs:48-71 | the proto collector configuration is checked for id, host and port only |
| Validate.ProtoValidatorsAgree | common/lifelog-types/src/validate.rs:12-71 | the two server validators agree; the proto collector validator accepts all the full one accepts, and agrees with it when no screen or microphone is configured |
| Validate.PortMessage | common/lifelog-types/src/lib.rs:592-597 | a port of 0 or above 65535 is reported with its value once the checks before it pass |
| DataRetrieval.AcceptedNameIsInert | server/src/data_retrieval.rs:7-20 | an accepted name holds no backquote, quote, space or ';', so it cannot close the quoted identifier or start another statement |
| DataRetrieval.KeysAfterSpec | server/src/data_retrieval.rs:143-167 | an unsafe table name is refused before any statement is sent; otherwise the keys are exactly the origin's keys of the returned ids that parse, in order, and a failing query or `take(0)` is a database error |
| Server.GetAction | server/src/server.rs:255-293 | the policy never starts a sync while one is pending, nor a transform while one is pending |
| Server.GetActionSpec | server/src/server.rs:255-293 | the policy syncs exactly when at least `collector_sync_interval` whole seconds have passed since the last sync and no sync is pending; otherwise it transforms when no transform is pending, and sleeps 100 ms only when both are pending |
| Server.MissingTimestamps | server/src/server.rs:258-274 | with neither timestamp set, both read as the epoch: the policy syncs exactly when the interval is at most zero and no sync is pending |
| Server.Without | server/src/server.rs:476-481 | `retain` removes every occurrence of the kind and keeps the rest in order |
| Server.RegisteredSpec | server/src/server.rs:63-76 | registering keeps ids unique, puts the new collector in, keeps every other collector in place, and grows the registry only for a new id |
| Server.ServerCore.constructor | server/src/server.rs:131-200 | a server starts with no collectors, no reported states and nothing pending |
| Server.ServerCore.RegisterCollector | server/src/server.rs:63-76 | the scan overwrites the collector with the same id, or appends the new one, and changes nothing else |
| Server.ServerCore.ContainsCollector | server/src/server.rs:327-339 | true exactly when some registered collector has that id |
| Server.ServerCore.ReportCollectorState | server/src/server.rs:224-230 | the state is stored under its own name, replacing an earlier report, and the call always succeeds |
| Server.ServerCore.Step | server/src/server.rs:304-317 | the state is stamped with the current time, the policy's action is returned, and a sync or transform is added to the pending actions before its work starts; at most one of each kind stays pending |
| Server.ServerCore.FinishSync | server/src/server.rs:473-481 | the end of a sync sets the last-sync time and removes every pending sync |
| Server.ServerCore.FinishTransform | server/src/server.rs:517-529 | the end of a transform removes every pending transform |
| Server.SyncCycle | server/src/server.rs:437-483 | a started sync blocks further syncs until it finishes; after it finishes, the next step syncs again once the interval has passed since the finish |
| ShellLines.ZshAccepted | collector/src/modules/shell_history.rs:57-69 | a line accepted as zsh's extended format starts with ": " and holds a ';'; its command is trimmed and not empty, and its instant is a whole second in chrono's range |
| ShellLines.ZshLineRoundTrip | collector/src/modules/shell_history.rs:57-69 | a line `: <epoch>:<duration>;<command>`, ended by any line-end characters, reads back as that epoch second and the trimmed command, whatever the duration holds short of a ';' |
| ShellLines.TrimLineEnd | collector/src/modules/shell_history.rs:59 | trailing '\n' and '\r' characters are cut back to the text before them |
| ShellLines.CommentTimestamp | collector/src/modules/shell_history.rs:79-81 | a `#` line's timestamp is its trimmed text read as an `i64` epoch second, when chrono accepts it |
| ShellLines.Classify | collector/src/modules/shell_history.rs:78-87 | a line is a comment when it starts with '#', blank when nothing is left after trimming, and otherwise a clean command |
| ShellLines.CommandLineOf | collector/src/modules/shell_history.rs:84-89 | a clean command not starting with '#', with a line feed, reads as that command |
| ShellLines.CommentLineOf | collector/src/modules/shell_history.rs:79-82 | a comment line `# <t>` gives the epoch second t |
| ShellLines.DetectShellType | collector/src/modules/shell_history.rs:94-101 | the setting trimmed and lower-cased: "zsh" is Zsh, "bash" is Bash, anything else Auto |
| ShellHistory.ParseBashHistTime | collector/src/modules/shell_history.rs:71-92 | the loop over the lines computes `BashHistory`: a comment sets the pending time, a blank line is skipped, a command takes the pending time or, when there is none, a clock read of its own |
| ShellHistory.BashEventsSpec | collector/src/modules/shell_history.rs:71-92 | the bash reading keeps exactly the commands, in order; a command after a timestamp comment takes that whole second, and every other command takes the next clock read, in turn |
| ShellHistory.BashPairing | collector/src/modules/shell_history.rs:322-333 | the test: a comment's time goes to the next command, and the command after it, with no comment before it, gets the first clock read |
| ShellHistory.LinesFlatten | collector/src/modules/shell_history.rs:121-126 | the byte pieces `read_line` takes off the file, put back together, are the bytes read |
| ShellHistory.LinesShape | collector/src/modules/shell_history.rs:121-126 | every piece but the last ends with its only line feed byte; the last may have none |
| ShellHistory.NextLine | collector/src/modules/shell_history.rs:121-126 | one `read_line` call takes a non-empty piece: the bytes up to and including the first line feed, or all that is left; the pieces are the split `Lines` gives |
| ShellHistory.ReadLines | collector/src/modules/shell_history.rs:121-126 | the `read_line` loop computes `ReadText`: each piece decoded in turn, the first piece that is not UTF-8 ending the loop with the I/O error |
| ShellHistory.DecodePieces | collector/src/modules/shell_history.rs:121-126 | one line per piece when every piece decodes, otherwise the error "stream did not contain valid UTF-8" |
| ShellHistory.ReadTextSpec | collector/src/modules/shell_history.rs:121-126 | the lines are read exactly when the bytes are well-formed UTF-8, and then they put together are the text the bytes encode; otherwise the read is the I/O error |
| ShellHistory.ZshEvents | collector/src/modules/shell_history.rs:143-149 | the zsh reading keeps, in order, the events of the lines that parse in the extended format |
| ShellHistory.FallbackEvents | collector/src/modules/shell_history.rs:160-169 | every non-blank line, trimmed, is a clean command, and the `k`-th is stamped with the `k`-th clock read |
| ShellHistory.StartOffset | collector/src/modules/shell_history.rs:111-115 | reading resumes at the saved offset, or at 0 when the file has become shorter |
| ShellHistory.KeepParsed | collector/src/modules/shell_history.rs:144-148 | the loop keeps the parsed values of the lines that parse, in order |
| ShellHistory.CollectFallback | collector/src/modules/shell_history.rs:161-167 | the fallback loop, which reads the clock once per command, gives `FallbackEvents` |
| ShellHistory.ReadNewHistory | collector/src/modules/shell_history.rs:103-170 | the method computes `NewHistory`: cursor and events from the history file read at the resume offset |
| ShellHistory.ReadEvents | collector/src/modules/shell_history.rs:131-169 | zsh when the setting says so or, unset, some line parses as zsh; then bash when it finds commands; then every line as a command |
| ShellHistory.HistoryEventsSpec | collector/src/modules/shell_history.rs:131-169 | every format gives clean commands; zsh is chosen exactly when the setting says zsh or, with Auto, the zsh reading is not empty; bash is used when zsh is not and it finds commands |
| ShellHistory.NewHistorySpec | collector/src/modules/shell_history.rs:103-133 | no history file reads nothing and keeps the cursor; a failed read is an I/O error, and so are bytes after the resume offset that are not UTF-8; otherwise the cursor moves to the end of the file and the lines are the text from the resume offset |
| ShellHistory.CursorInsideCharacter | collector/src/modules/shell_history.rs:111-126 | a saved offset on a continuation byte, inside a character, makes the read an I/O error |
| ShellHistory.EncodedHistoryReads | collector/src/modules/shell_history.rs:103-133 | a file holding the UTF-8 encoding of a text, read from offset 0, succeeds, moves the cursor to its byte length and gives back that text's lines |
| Utf8.DecodeFirst | collector/src/modules/shell_history.rs:123 | a character takes one to four bytes, starts with a byte that is no continuation byte, which is ASCII exactly for a one-byte character, and continues with continuation bytes |
| Utf8.DecodeEncode | collector/src/modules/shell_history.rs:123 | the strict decoding of the UTF-8 encoding of a text is that text |
| Utf8.DecodeFirstEncode | collector/src/modules/shell_history.rs:123 | a character's encoding decodes to that character, whatever follows it |
| Utf8.DecodeAppend | collector/src/modules/shell_history.rs:121-126 | two well-formed byte strings put together decode to the two texts put together |
| Utf8.DecodeSplit | collector/src/modules/shell_history.rs:121-126 | a well-formed byte string cut after an ASCII byte, such as a line feed, leaves two well-formed halves |
| Utf8.DecodeFromContinuation | collector/src/modules/shell_history.rs:111-126 | bytes that start with a continuation byte are not well formed |
| ShellHistory.LoadCursor | collector/src/modules/shell_history.rs:45-50 | the saved text, trimmed, as a `u64`; a missing or unreadable cursor is 0 |
| ShellHistory.CursorRoundTrip | collector/src/modules/shell_history.rs:45-55 | a saved cursor loads back unchanged; an unreadable one restarts at 0 |
| ShellHistory.PollStep | collector/src/modules/shell_history.rs:219-262 | one pass of `run`: the cursor follows a successful read and is saved only when the read found events; a failed read changes nothing |
| ShellHistory.PollInterval | collector/src/modules/shell_history.rs:256-260 | the configured interval when positive, otherwise two seconds |
| ShellHistory.ToFrame | collector/src/modules/shell_history.rs:229-241 | one timestamp for all four time fields, the command, no working directory and exit code -1 |
| BrowserHistory.AsU32 | collector/src/modules/browser_history.rs:40 | `as u32` on an `i64` keeps the low 32 bits: a value already in range is unchanged |
| BrowserHistory.ChromeToUtcFromEpoch | collector/src/modules/browser_history.rs:83-87 | from the Windows epoch on, a Chrome time converts to its Unix microseconds in nanoseconds |
| BrowserHistory.ChromeToUtcBeforeEpoch | collector/src/modules/browser_history.rs:83-87 | before the Unix epoch a non-zero truncated remainder is negative, its `u32` cast is at least 2^32 - 10^9, chrono refuses it and the visit is dated at the Unix epoch; whole seconds convert exactly |
| BrowserHistory.UtcToChromeValue | collector/src/modules/browser_history.rs:62-67 | an instant in Chrome's unit is its microseconds, rounded down, after the epoch offset |
| BrowserHistory.EpochRoundTrips | collector/src/modules/browser_history.rs:37-41 | an instant from the Unix epoch on comes back from Chrome's unit truncated to the microsecond, and a Chrome time from the Windows epoch on comes back unchanged |
| BrowserHistory.UtcToChromeFitsI64 | collector/src/modules/browser_history.rs:62-67 | an in-range instant is an `i64` in Chrome's unit, so the cursor text always parses |
| BrowserHistory.InitialLastQueryAsWrittenIsLate | collector/src/modules/browser_history.rs:45-56 | with no cursor file the start is computed without subtracting the epoch: 11644473600 s after the Unix epoch, twice the constant in Chrome's unit, so no visit before that date is in the window; yet the file it writes decodes to the Unix epoch |
| BrowserHistory.InitialLastQuery | collector/src/modules/browser_history.rs:45-56 | the corrected start with no cursor file: the Unix epoch, which is the epoch constant in Chrome's unit, as the written cursor says |
| BrowserHistory.Window | collector/src/modules/browser_history.rs:71-76 | the rows with `last < visit_time <= now`, in database order |
| BrowserHistory.Frames | collector/src/modules/browser_history.rs:75-97 | one frame per row, in order, each with its own generated UUID; the first row whose visit count is not a `u32` ends the scan with an error |
| BrowserHistory.CollectFrames | collector/src/modules/browser_history.rs:94-97 | the `for entry in history_iter` loop computes `Frames` |
| BrowserHistory.GetDataSpec | collector/src/modules/browser_history.rs:28-104 | for any start of the first window: a successful call returns one frame per visit in the window after the cursor up to now, in database order, dated by converting its Chrome time; with no cursor file the window opens at that start; a failed call leaves only what creating the file wrote |
| BrowserHistory.GetData | collector/src/modules/browser_history.rs:28-104 | a cursor that cannot be read is an error that writes nothing; a successful call saves now's Chrome time when that write succeeds, and otherwise leaves what the failed write left; any other error leaves the cursor file as creating it left it; the frames are those of the window |
| BrowserHistory.LastQuery | collector/src/modules/browser_history.rs:29-56 | an unopenable cursor file starts the window at the given start (as written `InitialLastQueryAsWritten`, corrected `InitialLastQuery`); a cursor that is not an `i64` starts it at the clock read taken then; a cursor from the Windows epoch on starts it exactly at its Chrome time |
| BrowserHistory.GarbledCursorCollectsBetweenReads | collector/src/modules/browser_history.rs:35-76 | a cursor that is not an `i64` starts the window at the clock read of line 43, so the call collects exactly the visits between that read and the one of line 60, and nothing when both give the same microsecond |
| BrowserHistory.WriteFailuresIgnored | collector/src/modules/browser_history.rs:51-54 | how either write of the cursor file went never changes what the call returns (lines 99-101 log a failure too) |
| BrowserHistory.FirstCallAsWrittenCollectsNothing | collector/src/modules/browser_history.rs:45-76 | with the start as written, a first call before the year 2338 returns no frame, whatever the database holds |
| BrowserHistory.FirstCallCorrectedCollectsAll | collector/src/modules/browser_history.rs:45-76 | with the corrected start, a first call's window holds exactly the visits after the Unix epoch up to now |
| BrowserHistory.TornCursor | collector/src/modules/browser_history.rs:99-101 | a save cut short after `k` characters leaves text that does not parse when `k` is 0, and otherwise parses as now's Chrome time with its last digits dropped, an earlier time, so the next window opens earlier and repeats visits |
| BrowserHistory.CursorResumes | collector/src/modules/browser_history.rs:29-43 | the cursor written at `now` reads back as `now` truncated to the microsecond, the same Chrome time, so successive windows neither overlap nor leave a gap |
| WindowActivity.ParseBackend | collector/src/modules/window_activity.rs:42-53 | the trimmed, ASCII-lower-cased setting is Auto exactly when empty or "auto", X11 exactly for "x11", Hyprctl exactly for "hyprctl"; any other word is a validation error on `window_activity.backend` naming it |
| WindowActivity.ParseBackendNames | collector/src/modules/window_activity.rs:44-47 | each backend's own word parses back to that backend |
| WindowActivity.PickBackends | collector/src/modules/window_activity.rs:75-82 | a bad setting fails with the parse error; Auto tries Hyprland's tool and then X11, a named backend alone |
| WindowActivity.NonEmptyWindow | collector/src/modules/window_activity.rs:134-144 | a window is returned exactly when it has an application or a title; with neither, a validation error on the reader's field |
| WindowActivity.ReadHyprctl | collector/src/modules/window_activity.rs:107-145 | a failure to run or decode `hyprctl` is passed on; a returned window has a name and both names trimmed |
| WindowActivity.ReadXdotool | collector/src/modules/window_activity.rs:155-194 | a failure of either `xdotool` call is passed on; a returned window has a name and both names trimmed |
| WindowActivity.Words | collector/src/modules/window_activity.rs:210-211 | `split_whitespace` gives non-empty words with no white space in them |
| WindowActivity.FirstHex | collector/src/modules/window_activity.rs:212-216 | a window id is found exactly when some word starts with "0x", and it is the first such word |
| WindowActivity.OddPieces | collector/src/modules/window_activity.rs:237-242 | `skip(1).step_by(2)` keeps the pieces at odd positions, half of them rounded down |
| WindowActivity.ParseXpropProps | collector/src/modules/window_activity.rs:231-260 | the line loop computes the names the `WM_CLASS` and `_NET_WM_NAME` lines leave, and both stay trimmed |
| WindowActivity.ClassLineSets | collector/src/modules/window_activity.rs:234-247 | a `WM_CLASS` line with two quoted tokens sets the application to the second, trimmed, and keeps the title |
| WindowActivity.NameLineSets | collector/src/modules/window_activity.rs:248-258 | a line mentioning `_NET_WM_NAME` that does not start with `WM_CLASS` sets the title to its first quoted token, trimmed, and keeps the application |
| WindowActivity.XpropClassThenName | collector/src/modules/window_activity.rs:233-260 | for the two-line output the comments show, with any quote-free instance, class and title, the application is the class and the title the title |
| WindowActivity.ReadXprop | collector/src/modules/window_activity.rs:196-273 | the `xprop` reader: failures of either call are passed on, a root output without a "0x" word is a validation error, and a returned window has a name and both names trimmed |
| WindowActivity.TryBackendsSpec | collector/src/modules/window_activity.rs:84-105 | the backends are asked in order: the call succeeds exactly when one of them does, with the first success, and otherwise fails with the last backend's error |
| WindowActivity.ReadActiveWindowSpec | collector/src/modules/window_activity.rs:84-105 | a bad setting fails with its parse error; Auto asks Hyprland first and falls back to X11's result (`xdotool`, then `xprop`); a named backend's reader alone decides |
| WindowActivity.ReadActiveWindowAccepted | collector/src/modules/window_activity.rs:84-273 | whatever backend answers, a returned window has a name and both names are trimmed |
| WindowActivity.ReadWithAccepted | collector/src/modules/window_activity.rs:147-153 | each backend's reader, X11's fallback to `xprop` included, returns only such windows |
| WindowActivity.XpropTrimmed | collector/src/modules/window_activity.rs:231-260 | the names the `xprop` lines leave, from two empty names, are trimmed |
| WindowActivity.SpanFrame | collector/src/modules/window_activity.rs:275-296 | a span becomes a focused interval record of its window from its start to `end`, its device and canonical times the start, its duration the elapsed milliseconds and never negative |
| WindowActivity.PollInterval | collector/src/modules/window_activity.rs:375-379 | the configured period when positive, else one second |
| WindowActivity.SpanTracker.constructor | collector/src/modules/window_activity.rs:352 | no window in focus and nothing recorded |
| WindowActivity.SpanTracker.Observe | collector/src/modules/window_activity.rs:355-373 | a failed read changes nothing; the same window changes nothing; a new window closes the open span into a record at `now`, kept when the append succeeds, and opens a span at `now` |
| WindowActivity.Run | collector/src/modules/window_activity.rs:351-383 | over successful reads the records and the open span are those `RunState` gives, one `Observe` after another; consecutive records share their boundary, the last record ends where the open span starts and names a different window, and the open span is the last window seen |
| WindowActivity.RunStateWindows | collector/src/modules/window_activity.rs:355-373 | the windows of the records, then the open span's, are the windows read with repeats in a row collapsed: a record is written exactly when the window changes |
| Clipboard.Normalized | collector/src/modules/clipboard.rs:54-59 | the result is a prefix of the tool's text; only a text ending with a line feed loses its trailing run of line feeds and carriage returns, all of it; any other text is kept whole |
| Clipboard.NormalizeText | collector/src/modules/clipboard.rs:55-59 | the `while` loop that pops one character at a time computes `Normalized` |
| Clipboard.NormalizedIdempotent | collector/src/modules/clipboard.rs:54-59 | normalising twice is normalising once, so deduplication against the last stored text is stable |
| Clipboard.NormalizedLineEnds | collector/src/modules/clipboard.rs:54-59 | a text ending in CRLF normalises like the same text ending in LF, and a text ending in a bare carriage return is kept whole |
| Clipboard.ByteLen | collector/src/modules/clipboard.rs:63 | `String::len` counts UTF-8 bytes: never fewer than the characters |
| Clipboard.ByteLenPrefixLess | collector/src/modules/clipboard.rs:63-64 | a longer prefix has strictly more bytes |
| Clipboard.TruncateToBoundary | collector/src/modules/clipboard.rs:63-65 | the corrected cut: the longest prefix of whole characters within the limit, the whole text when it fits |
| Clipboard.TruncateAsWritten | collector/src/modules/clipboard.rs:63-65 | `String::truncate` as called: a text within the limit stays whole; otherwise the call succeeds exactly when the limit is a character boundary, leaving a prefix of exactly the limit's bytes, and panics otherwise |
| Clipboard.TruncateBoundaryExact | collector/src/modules/clipboard.rs:63-65 | the whole-character cut reaches the limit exactly when the limit is a character boundary |
| Clipboard.TruncateAgrees | collector/src/modules/clipboard.rs:63-65 | where the limit is a character boundary both cuts agree |
| Clipboard.AsciiByteLen | collector/src/modules/clipboard.rs:63 | an ASCII text has as many bytes as characters, so every limit is a boundary there |
| Clipboard.TruncateAsWrittenPanics | collector/src/modules/clipboard.rs:63-65 | a limit inside the first character (such as 1 for "é") makes the collector's cut panic where the whole-character cut leaves the empty text |
| Clipboard.Accept | collector/src/modules/clipboard.rs:48-66 | a tool contributes exactly when it started, exited successfully and its normalised text is not empty; that text, cut within `max_text_bytes` when the limit is set, and whole when it fits |
| Clipboard.FirstTextSpec | collector/src/modules/clipboard.rs:47-72 | the tools are asked in order: the read succeeds exactly when some tool contributes, with the first contribution; otherwise it is the validation error on the "clipboard" field |
| Clipboard.ReadClipboardText | collector/src/modules/clipboard.rs:38-73 | the method, with its normalising loop, returns what `FirstText` over the three tools gives |
| Clipboard.ReadOrder | collector/src/modules/clipboard.rs:41-45 | `wl-paste` decides whenever it yields text, and `xsel` decides only when neither `wl-paste` nor `xclip` does |
| Clipboard.FrameOf | collector/src/modules/clipboard.rs:124-134 | a frame holds the text as "text/plain" with its UUID, and every time field is the poll's instant |
| Clipboard.PollInterval | collector/src/modules/clipboard.rs:152-156 | the configured period when positive, else two seconds |
| Clipboard.ClipboardWatcher.constructor | collector/src/modules/clipboard.rs:117 | no last text and nothing stored |
| Clipboard.ClipboardWatcher.Poll | collector/src/modules/clipboard.rs:120-150 | a failed read, the text already stored or a failed append changes nothing; a new text that is appended becomes a frame and the last text |
| Clipboard.Run | collector/src/modules/clipboard.rs:116-161 | the frames stored and the last text are those `RunState` gives, one `Poll` after another; no stored frame repeats the text before it, there are at most as many frames as polls, and every stored text was read at some poll |
| Clipboard.RunStateDedup | collector/src/modules/clipboard.rs:120-150 | the stored texts are the texts read and appended, with repeats in a row collapsed; a failed read or append leaves no trace, and the last text is the last one stored |
| Mouse.FrameOf | collector/src/modules/mouse.rs:103-115 | a frame holds the position with no button pressed and its UUID, and every time field is the poll's instant |
| Mouse.ChangedIsDifferent | collector/src/modules/mouse.rs:101 | the position counts as changed exactly when it differs from the last stored one, or none is stored yet |
| Mouse.PollInterval | collector/src/modules/mouse.rs:135-139 | the configured period when positive, else a quarter of a second |
| Mouse.CursorWatcher.constructor | collector/src/modules/mouse.rs:94-95 | no position stored, not warned, nothing recorded |
| Mouse.CursorWatcher.Poll | collector/src/modules/mouse.rs:98-133 | an unavailable position is logged exactly when not already warned and leaves the watcher warned; a read clears the warning; an unchanged position or a failed append changes nothing else; a new position that is appended becomes a frame and the last position |
| Mouse.Run | collector/src/modules/mouse.rs:93-144 | the frames stored and the remembered position are those `RunState` gives, one `Poll` after another; no stored frame repeats its predecessor's position, every stored position was read at some poll, and the outage is logged at most once more than positions were read, and exactly once when none ever is |
| Mouse.RunStateDedup | collector/src/modules/mouse.rs:98-133 | the stored positions are the positions read and appended, with repeats in a row collapsed; a missing position or a failed append leaves no trace, and the remembered position is the last one stored |
| FaultLayer.RejectNext | server/tests/harness/fault_layer.rs:36-42 | a reject-next-`n` rule owing `n` rejections with its code and message |
| FaultLayer.DropEvery | server/tests/harness/fault_layer.rs:49-54 | a drop-every-`n` rule whose counter starts at zero |
| FaultLayer.Step | server/tests/harness/fault_layer.rs:94-100 | what a request reaching a rule does to its counter keeps the rule well formed (a drop rule's `n` stays positive) |
| FaultLayer.StepAll | server/tests/harness/fault_layer.rs:87-118 | every rule takes its own step, and the list keeps its length |
| FaultLayer.EvalRules | server/tests/harness/fault_layer.rs:85-120 | the scan keeps the number of rules and keeps them well formed |
| FaultLayer.EvalRulesPass | server/tests/harness/fault_layer.rs:87-119 | when no rule fires the request passes, and every rule has counted it |
| FaultLayer.EvalRulesFire | server/tests/harness/fault_layer.rs:87-117 | the first rule that fires decides the fault; the rules up to it have counted the request and those after it are untouched |
| FaultLayer.DelayShadows | server/tests/harness/fault_layer.rs:105-107 | a delay rule in front answers every request with its delay, and the rules behind it never see a request |
| FaultLayer.RejectNextNFaults | server/tests/harness/fault_layer.rs:94-103 | a lone reject-next-`n` rule rejects exactly the next `n` requests with its code and message and lets every later one through |
| FaultLayer.DropEveryNFaults | server/tests/harness/fault_layer.rs:108-115 | a lone drop-every-`n` rule whose counter stands at `c` rejects the `i`-th following request exactly when `c + i + 1` is a multiple of `n` |
| FaultLayer.FaultController.constructor | server/tests/harness/fault_layer.rs:72-74 | a controller with no rules |
| FaultLayer.FaultController.AddRule | server/tests/harness/fault_layer.rs:76-78 | the rule is appended after the others |
| FaultLayer.FaultController.Clear | server/tests/harness/fault_layer.rs:80-82 | no rules are left |
| FaultLayer.FaultController.Evaluate | server/tests/harness/fault_layer.rs:85-120 | the in-place scan returns the fault `EvalRules` gives and leaves the rules it gives |
| FaultLayer.EvalFrom | server/tests/harness/fault_layer.rs:87-118 | one rule of the scan: it fires and ends the scan, or takes its step and hands on to the rest |
| FaultLayer.RejectTwiceThenPass | server/tests/harness/fault_layer.rs:212-225 | `reject_next_n(2)` rejects two requests and lets the third through |
| FaultLayer.ClearedControllerPasses | server/tests/harness/fault_layer.rs:227-236 | a rejecting controller lets requests through once cleared |
| FaultLayer.DropEveryThird | server/tests/harness/fault_layer.rs:238-249 | of six requests under `drop_every_n(3)`, exactly the third and the sixth are dropped |
| EventGen.ChunkAt | server/tests/harness/event_gen.rs:29-44 | the `i`-th chunk carries the stream identity, starts at `i` times the chunk size, holds the next chunk-size draws of the generator, and its hash is the digest of its data |
| EventGen.GenerateChunkSequence | server/tests/harness/event_gen.rs:17-48 | the loop yields `n` chunks, the `i`-th being `ChunkAt(i)`, so the same seed gives the same chunks |
| EventGen.CollectHashes | server/tests/harness/event_gen.rs:56-58 | one hash per chunk, in order, each the chunk's own |
| EventGen.GeneratedTiles | server/tests/harness/event_gen.rs:85-93 | the chunks start at offset 0, each starts where the one before ends, the last ends at `expected_final_offset(n, size)`, and every collected hash is the digest of its chunk's data |
| EventGen.Submissions | server/tests/harness/event_gen.rs:33-42 | each generated chunk submitted with its offset, data and hash, in order |
| EventGen.GeneratedAccepted | server/tests/harness/event_gen.rs:13-53 | with a non-zero chunk size the server's chunk validator accepts every generated chunk, under either offset policy, and ends expecting the generator's final offset |
| EventGen.UniformContiguous | server/tests/harness/event_gen.rs:44 | chunks of one size at consecutive multiples of it from a start are contiguous, and cover their count times the size |
| TimestampSerde.Serialize | interface/src-tauri/src/timestamp_serde.rs:5-16 | an absent timestamp is serialised as none and a present one as a string: the seconds, a '.', and the nanoseconds zero-padded to nine digits |
| TimestampSerde.Deserialize | interface/src-tauri/src/timestamp_serde.rs:18-38 | none reads as no timestamp; a string that does not split at '.' into exactly two parts is the "Invalid timestamp format" error; a timestamp read back fits an `i64` and an `i32` |
| TimestampSerde.NoDotInNumber | interface/src-tauri/src/timestamp_serde.rs:11 | neither formatted number contains a '.', so the text splits into exactly its two fields |
| TimestampSerde.RoundTrip | interface/src-tauri/src/timestamp_serde.rs:5-38 | every timestamp a prost `Timestamp` can hold, negative nanoseconds included, and the absent one come back unchanged from their serialised form |
| TimestampSerde.FractionIsNanosCount | interface/src-tauri/src/timestamp_serde.rs:31-34 | the fraction is a count of nanoseconds: "5.1" reads as five seconds and one nanosecond, which serialises as "5.000000001" |
| TimestampSerde.NotTwoParts | interface/src-tauri/src/timestamp_serde.rs:26-29 | a text without a '.' or with two of them is refused as an invalid format |
| Utils.ReplaceHomeDirShared | common/utils/src/lib.rs:9-14 | every "~/" becomes the home directory and a '/', and "/tmp/" when there is no usable home directory |
| Utils.ReplaceHomeDirTop | src/utils.rs:4-7 | the top-level copy stops (panics) exactly when there is no usable home directory |
| Utils.CopiesAgree | common/utils/src/lib.rs:9-14 | the two copies give the same path whenever there is a home directory; without one the shared copy expands to "/tmp" where the other stops |
| Utils.ExpandLeading | common/utils/src/lib.rs:13 | a leading "~/" becomes the home directory and a '/', and the rest is expanded in turn |
| Utils.ExpandPlainChar | common/utils/src/lib.rs:13 | a character that is not '~' is kept and the rest expanded in turn |
| Utils.ExpandNothing | common/utils/src/lib.rs:13 | a path without "~/" comes back unchanged |
| Utils.ExpandMakesTilde | common/utils/src/lib.rs:13 | expansion is not idempotent: with an absolute home directory, "~~/" becomes "~" followed by the home directory, which starts with a new "~/" |
| Utils.TimestampToEpoch | common/utils/src/lib.rs:16-25 | a name not ending in ".png" is refused with its own error; otherwise the name less ".png" is parsed, giving its epoch seconds or the parse error |
| Utils.TimestampToEpochStem | src/utils.rs:9-17 | the parsed text is exactly the stem in front of ".png", in the top-level copy as in the shared one |
| TimeLapse.ExtLen | create-time-lapse.py:41 | an accepted extension has three or four letters after its dot, and the name is longer than it |
| TimeLapse.EpochOf | create-time-lapse.py:49-60 | a stamp is placed in time exactly when it parses and names one instant or an ambiguous one (taken as standard time); a stamp in a gap is skipped |
| Text.PathJoin | create-time-lapse.py:64 | the joined path ends with the listed name |
| TimeLapse.Selected | create-time-lapse.py:40-64 | at most one image per listed name |
| TimeLapse.SelectedMembers | create-time-lapse.py:40-64 | an image is collected exactly when some listed name gives it |
| TimeLapse.SelectedSound | create-time-lapse.py:40-64 | a collected image lies in the window, both ends included, and comes from a name with an accepted extension and the stamp pattern, whose stamp places it at its instant and whose joined path it carries |
| TimeLapse.Scan | create-time-lapse.py:40-64 | the `for` loop over the listing collects `Selected`, in listing order |
| TimeLapse.ImageLeTotalPreorder | create-time-lapse.py:70 | tuple order on (instant, path) is total and transitive |
| TimeLapse.ImageLeAntisymmetric | create-time-lapse.py:70 | two images ordered both ways are the same image, so the sorted order is fixed |
| TimeLapse.Paths | create-time-lapse.py:72 | one path per image, in order |
| TimeLapse.RepeatFrames | create-time-lapse.py:75 | each path is repeated for `frames_per_image` consecutive frames: frame `k` is path `k / n` |
| TimeLapse.CreateTimeLapse | create-time-lapse.py:24-75 | `main` computes `Plan`: an unknown zone and too few frames per image are reported before the directory is read, then the empty window, then the frame list |
| TimeLapse.VideoFrames | create-time-lapse.py:66-75 | a video is made only with a known zone and a positive frame count, from the collected images sorted by instant and then path, a permutation of them, each path repeated for its frames |
| TimeLapse.NoImagesExactly | create-time-lapse.py:66-68 | with a known zone and a positive frame count, "no images" is the outcome exactly when no listed name gives an image in the window |
| RemoveTypeJson.TargetsIn | remove.type.json.py:9-10 | at most one path per listed name |
| RemoveTypeJson.DirTargets | remove.type.json.py:7-10 | each walked directory's paths to try, one list per directory |
| RemoveTypeJson.TargetsInFound | remove.type.json.py:9-10 | a path is tried in a directory exactly when the directory lists a name ending with ".type.json" whose joined path it is |
| RemoveTypeJson.TargetsFound | remove.type.json.py:7-10 | a path is tried exactly when some walked directory gives it |
| RemoveTypeJson.TargetsInPush | remove.type.json.py:8-10 | one more listed name adds its path exactly when it ends with ".type.json" |
| RemoveTypeJson.TargetsPush | remove.type.json.py:7-10 | one more walked directory adds its paths after the others |
| RemoveTypeJson.RemoveAllPush | remove.type.json.py:11-15 | one more removal is one more step after the others |
| RemoveTypeJson.RemoveAllFiles | remove.type.json.py:11-15 | afterwards exactly the tried paths the system lets go are gone; a failure stops nothing |
| RemoveTypeJson.RemoveAllLog | remove.type.json.py:11-15 | one report per tried path, in order, after the earlier ones: removed exactly when the file existed, the system let it go and it was not already tried, and an error otherwise |
| RemoveTypeJson.RemovedAreMetadata | remove.type.json.py:9 | every removed name is one the metadata generator reads |
| RemoveTypeJson.BackupsStay | remove.type.json.py:9 | the converse fails: a "….type.json.bak" name is read by the generator but not removed |
| RemoveTypeJson.FileTree.constructor | remove.type.json.py:6 | the existing files, nothing reported |
| RemoveTypeJson.FileTree.Remove | remove.type.json.py:11-15 | `os.remove` and its report: an existing file the system lets go is deleted and reported removed; otherwise the files stay and an error is reported |
| RemoveTypeJson.FileTree.RemoveInDir | remove.type.json.py:8-15 | the inner loop tries the directory's ".type.json" paths in listing order |
| RemoveTypeJson.FileTree.RemoveTypeJsonFiles | remove.type.json.py:6-15 | the walk removes every ".type.json" file in walk order, reporting each removal or failure and going on |
| RemoveTypeJson.RemoveFromRoot | remove.type.json.py:18 | the script walks from "./" |
| BuildGen.MapTsType | common/data-modalities/build.rs:237-246 | "any" exactly for a type that is not a Rust scalar; a scalar becomes "boolean", "number" or "string" |
| BuildGen.MapProtobufType | common/data-modalities/build.rs:248-260 | always one of the Protobuf scalar types, and "string" for anything that is not a Rust scalar |
| BuildGen.MapWrapperType | common/data-modalities/build.rs:262-274 | "String" for every type that is not one of the wrapped scalars, `isize` and `usize` included |
| BuildGen.ScalarMapsAgree | common/data-modalities/build.rs:237-274 | on every scalar the three maps agree (numbers are numbers, booleans booleans, the wrapper is that of the Protobuf type) except that `isize` and `usize` get the `String` wrapper though their Protobuf type is numeric |
| BuildGen.TsVecOf | common/data-modalities/build.rs:80-87 | `Vec<x>` not named in the table is "Uint8Array" for `u8` and an array of `x`'s TypeScript type otherwise |
| BuildGen.ProtoVecOf | common/data-modalities/build.rs:165-168 | `Vec<x>` not named in the table is a `repeated` field of `x`'s Protobuf type |
| BuildGen.NoWrapper | common/data-modalities/build.rs:80-92 | a type with no '<' names no vector, option or map |
| BuildGen.UnknownPlainType | common/data-modalities/build.rs:95-98 | a plain type name that neither table nor any definition knows is "any" in TypeScript and stops the Protobuf build (line 197) |
| BuildGen.StdPathBufOnlyInTs | common/data-modalities/build.rs:67 | `std::path::PathBuf` is a string in TypeScript but missing from the Protobuf table (which has only `PathBuf`, line 146), so a field of that type stops the Protobuf build |
| BuildGen.TablesAgree | common/data-modalities/build.rs:54-77 | every other type the TypeScript table names outright is in the Protobuf table, with that table's type |
| BuildGen.TypeScriptGenerate | common/data-modalities/build.rs:34-107 | the generator's output is the header followed by one block per definition, in order |
| BuildGen.TsBlocksText | common/data-modalities/build.rs:38-103 | the loop appends each definition's block to the output: an enum as a union of its quoted variants, a struct as an interface |
| BuildGen.TsInterface | common/data-modalities/build.rs:52-102 | a struct's interface: its header, one `name: type;` line per field in order, and the closing brace |
| BuildGen.ProtobufGenerate | common/data-modalities/build.rs:109-235 | the schema is the header, one enum or message per definition in order, then the `LifelogData` container; None (the panic) exactly when some struct field has no Protobuf type |
| BuildGen.ProtoBlocksText | common/data-modalities/build.rs:122-214 | the loop succeeds exactly when every struct's fields have Protobuf types, and then appends each definition's block |
| BuildGen.ProtoEnum | common/data-modalities/build.rs:124-130 | an enum's variants numbered by their position from 0 |
| BuildGen.ProtoMessage | common/data-modalities/build.rs:134-213 | a message's fields numbered from 1 in order, `repeated` where the type says so; None exactly when some field's type has no Protobuf type |
| BuildGen.DataLinesText | common/data-modalities/build.rs:216-231 | the container lists the Data-typed definitions only, numbered from 1 by a counter only they advance |
| BuildGen.DataLinesListData | common/data-modalities/build.rs:219-222 | a definition is listed in the container exactly when it is a Data-typed one |
| BuildGen.MetadataPathsFound | common/data-modalities/build.rs:276-285 | a path is found exactly when some readable walk entry whose name contains ".type.json" has it |
| BuildGen.FindMetadataFiles | common/data-modalities/build.rs:276-285 | the loop collects the metadata paths in walk order, skipping unreadable entries |
| BuildGen.CollectKeys | common/data-modalities/build.rs:294 | a name is kept exactly when some definition has it |
| BuildGen.CollectLastWins | common/data-modalities/build.rs:294 | what is kept for a name is its last definition |
| BuildGen.AllDefsErrStays | common/data-modalities/build.rs:290-293 | once a file cannot be read or a line parsed, later files do not change the failure |
| BuildGen.ParseMetadataFiles | common/data-modalities/build.rs:287-298 | every line of every file, in order, goes into the map by name, later replacing earlier; the first unreadable file or unparsable line is the error |
| BuildGen.ParseLines | common/data-modalities/build.rs:291-295 | the loop over one file's lines adds its definitions to those gathered so far, or stops at the first bad line |

## Left out

- Device capture, gRPC and SurrealDB plumbing, the UIs and the Tauri shells are not part of this model. Neither are authentication, embeddings, OCR or the `/proc` readers.
- The database-backed `get_data_by_key` of server/src/data_retrieval.rs is not part of this model.
- The server's ingest ACK gating is not part of this model.
- Async tasks, the `RUNNING` flags, `sleep` and tracing logs are not modelled. Each collector's `run` loop is modelled as a sequence of polls, with the poll's instant, the read's result and whether the append succeeded given for each poll.
- Floating point is not modelled:
  - The skew confidence is a real number.
  - Durations in seconds are kept as whole milliseconds.
  - Mouse positions are kept as integers, because Hyprland reports whole pixels.
  - `round(duration * fps)` in the time-lapse script is given as an integer.
- Fixed-width integers are unbounded. Overflow of `u64` offsets and of the `fetch_add` counter is not modelled. Casts and range checks the code relies on are written out, such as `as u32` in the browser collector and the `i64`/`i32` parsers.
- Text is a sequence of Unicode scalar values. The shell-history file is read as bytes and each piece `read_line` returns is decoded strictly (module `Utf8`), so bytes that are not UTF-8 are the I/O error `read_line` gives. Elsewhere the decoding of a tool's or a file's output is folded into the parameter that delivers it. Case conversion is ASCII only. Clipboard lengths are counted in UTF-8 bytes.
- `to_lowercase` in the Protobuf generator is modelled as ASCII lower-casing.
- Regular-expression `\d` in the time-lapse script is modelled as ASCII digits.
- `HashMap` iteration order is not modelled:
  - the collector configurations of a system configuration are a sequence;
  - `parse_metadata_files` returns the map itself, not its values in an unspecified order.
- The build script's `main` and file writes, the time-lapse video encoding and its prints, and the clean-up script's error texts are not modelled.
- `current_timestamp` in common/utils/src/lib.rs reads the clock and is not modelled.
- `get_state`'s CPU and memory figures in server/src/server.rs are not modelled. The background sync and transform work is modelled only by the state change at its end.
- Planner.PlanShape: stated only for expressions without `Overlaps`, because the planner has no case for that operator.
- Planner.CompileReadsBack: stated only for expressions without `Overlaps`, for the same reason, and only for string values and `~` texts without a backslash, because `quote_string` as written does not escape one (see "Findings").
- Planner.ReadValueOf: a string value reads back only when it has no backslash, for the same reason.
- Planner.ReadEqOf: likewise only for string values without a backslash.
- Planner.ReadContainsOf: likewise only for texts without a backslash.
- Llql.ParseDuration: a count above chrono's bound for its unit (`Llql.MaxCount`: `i64::MAX` milliseconds in whole seconds, minutes or hours) makes chrono's `Duration` constructor panic; the model returns the span instead, and `Llql.ParseDurationSplit` and `Llql.ParseDurationOfUnits` promise a result only up to that bound.
- Buffer.DiskBuffer.PeekChunk: an I/O error other than end of file while reading a record inside the loop (common/utils/src/buffer.rs:140 and :151) is not modelled; the faults modelled are those of the cursor file, the log file and the seek.
- Buffer.DiskBuffer.constructor: the directory creation in `DiskBuffer::new` (common/utils/src/buffer.rs:33) cannot fail in the model.
- Buffer.UncommittedSizeOf: the I/O errors of the cursor read and of the log's metadata in `get_uncommitted_size` are not modelled; it is a function of the two files.
- ShellHistory.PollStep: says when the cursor is saved, not whether the write succeeds; `save_cursor` (collector/src/modules/shell_history.rs:52-55) discards the error of its write, and a failed save, after which the next start re-reads from the older offset, is not modelled.
- FaultLayer.FaultController.AddRule: requires a drop-every-`n` rule to have `n > 0`. With `n == 0` the source's `count % n` panics on the next evaluation, and that panic is not modelled.
- WindowActivity.Run: stated for runs whose reads and appends all succeed. The effect of a failed read or append is stated per step by `SpanTracker.Observe`.
- TimestampSerde.Serialize: gives the text outright only for non-negative nanoseconds. For negative ones the padding follows the sign, and `TimestampSerde.RoundTrip` covers them.
- Clipboard.Accept: cuts text at the last whole character within the limit, the corrected behaviour under "Findings". The panicking cut as written is `Clipboard.TruncateAsWritten`.

## Findings

| source | as written | input that shows it | evidently intended | confidence | as-written member | corrected member |
|---|---|---|---|---|---|---|
| server/src/query/planner.rs:85-87 | `quote_string` escapes `'` but not `\` | a containment of the text `\'` compiles to `f ~ '\\''`: the literal reads back as a lone backslash, and the last quote is left over, so the condition can be broken out of | escape backslashes as well as quotes, as `sanitize_surql_string` does in server/src/query.rs | not executed | Planner.ContainsBreaksOut | Planner.QuoteReadsBack |
| collector/src/modules/browser_history.rs:47-50 | with no cursor file, `last_query` takes the Windows-epoch offset `WINDOWS_EPOCH_MICROS` as microseconds after the Unix epoch | any first run: the window starts 11644473600 s after the Unix epoch (in 2338), so no visit is collected, although the cursor file written at the same time decodes to the Unix epoch | start at the Unix epoch, which the written constant denotes | not executed | BrowserHistory.FirstCallAsWrittenCollectsNothing | BrowserHistory.FirstCallCorrectedCollectsAll |
| collector/src/modules/clipboard.rs:63-65 | `s.truncate(max_text_bytes)` cuts at a byte count | the text "é" with `max_text_bytes` 1: byte 1 is inside the character and `truncate` panics | cut at the last character boundary within the limit | not executed | Clipboard.TruncateAsWrittenPanics | Clipboard.TruncateToBoundary |
