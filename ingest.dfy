/** The chunk ingester (`ChunkIngester`, common/utils/src/ingest.rs): validate a chunk
    with the resume policy, store its bytes in the content store, then record its
    metadata in the backend. The backend is the set-backed one of the module's tests:
    a set of persisted and a set of indexed chunk identities, and a switch that makes
    every persistence call fail. */
module Ingest {
  import opened Wrappers
  import opened Bytes
  import opened Cas
  import opened Chunk

  datatype IngestError = Validation(chunk: ChunkError) | Backend(message: string)

  /** The identity under which the backend idempotently records a chunk. */
  datatype ChunkId = ChunkId(collectorId: string, streamId: string, sessionId: nat, offset: nat)

  class SetBackend {
    var persisted: set<ChunkId>
    var indexed: set<ChunkId>
    const shouldFail: bool

    constructor (shouldFail: bool)
      ensures persisted == {} && indexed == {} && this.shouldFail == shouldFail
    {
      persisted := {};
      indexed := {};
      this.shouldFail := shouldFail;
    }

    /** `persist_metadata`: records the identity (a set, so repeats are idempotent), or
        fails without recording when the backend is switched to fail. */
    method PersistMetadata(id: ChunkId, length: nat, hash: string) returns (r: Result<(), string>)
      modifies this
      ensures (r, persisted) == PersistOutcome(shouldFail, old(persisted), id)
      ensures indexed == old(indexed)
    {
      if shouldFail {
        return Err(SIMULATED_FAILURE);
      }
      persisted := persisted + {id};
      r := Ok(());
    }

    /** `is_indexed`. */
    function IsIndexed(id: ChunkId): (b: bool)
      reads this
      ensures b <==> id in indexed
    {
      id in indexed
    }

    /** The test-suite's step of marking a chunk queryable. */
    method MarkIndexed(id: ChunkId)
      modifies this
      ensures indexed == old(indexed) + {id} && persisted == old(persisted)
    {
      indexed := indexed + {id};
    }
  }

  const SIMULATED_FAILURE: string := "simulated backend failure"

  function PersistOutcome(shouldFail: bool, persisted: set<ChunkId>, id: ChunkId): (Result<(), string>, set<ChunkId>) {
    if shouldFail then (Err(SIMULATED_FAILURE), persisted) else (Ok(()), persisted + {id})
  }

  /** The ingester's state as one value: the validator's next offset, the content
      store's files and the backend's persisted identities. */
  datatype IngestState = IngestState(next: nat, files: map<Path, Bytes>, persisted: set<ChunkId>)

  /** The stream an ingester serves. */
  datatype Stream = Stream(collectorId: string, streamId: string, sessionId: nat)

  function IdAt(s: Stream, offset: nat): ChunkId {
    ChunkId(s.collectorId, s.streamId, s.sessionId, offset)
  }

  /** One `apply_chunk` call: its result and the state afterwards. When the content store
      is given the bytes, `io` is what the filesystem reports. */
  function Apply(st: IngestState, s: Stream, root: Path, sha: Hasher, shouldFail: bool,
                 offset: nat, bytes: Bytes, hash: string, io: IoFault): (Result<nat, IngestError>, IngestState)
  {
    var (v, n) := Validate(st.next, offset, bytes, hash, Resume(offset), sha);
    if v.Err? then (Err(Validation(v.error)), st)
    else
      var (c, files) := PutOutcome(root, st.files, sha, bytes, io);
      if c.Err? then (Err(Backend(Cas.ErrorText(c.error))), IngestState(n, files, st.persisted))
      else
        var (p, persisted) := PersistOutcome(shouldFail, st.persisted, IdAt(s, offset));
        if p.Err? then (Err(Backend(p.error)), IngestState(n, files, persisted))
        else (Ok(v.value), IngestState(n, files, persisted))
  }

  class ChunkIngester {
    const validator: ChunkOffsetValidator
    const cas: FsCas
    const backend: SetBackend
    const stream: Stream

    /** `ChunkIngester::new`. */
    constructor (backend: SetBackend, cas: FsCas, collectorId: string, streamId: string, sessionId: nat, startOffset: nat)
      ensures this.backend == backend && this.cas == cas
      ensures stream == Stream(collectorId, streamId, sessionId)
      ensures fresh(validator) && validator.nextOffset == startOffset
    {
      this.backend := backend;
      this.cas := cas;
      stream := Stream(collectorId, streamId, sessionId);
      validator := new ChunkOffsetValidator(startOffset);
    }

    ghost function State(): IngestState
      reads validator, cas, backend
    {
      IngestState(validator.nextOffset, cas.files, backend.persisted)
    }

    /** `apply_chunk`. */
    method ApplyChunk(offset: nat, bytes: Bytes, hash: string, io: IoFault) returns (r: Result<nat, IngestError>)
      modifies validator, cas, backend
      ensures (r, State()) == Apply(old(State()), stream, cas.root, cas.sha, backend.shouldFail, offset, bytes, hash, io)
      ensures backend.indexed == old(backend.indexed)
    {
      var v := validator.ValidateChunk(offset, bytes, hash, Resume(offset), cas.sha);
      if v.Err? {
        return Err(Validation(v.error));
      }
      var c := cas.Put(bytes, io);
      if c.Err? {
        return Err(Backend(Cas.ErrorText(c.error)));
      }
      var p := backend.PersistMetadata(IdAt(stream, offset), |bytes|, hash);
      if p.Err? {
        return Err(Backend(p.error));
      }
      r := Ok(v.value);
    }

    /** `is_chunk_indexed`: asks the backend under the ingester's own stream identity. */
    function IsChunkIndexed(offset: nat): (b: bool)
      reads backend
      ensures b <==> IdAt(stream, offset) in backend.indexed
    {
      backend.IsIndexed(IdAt(stream, offset))
    }
  }

  /** The resume policy is given the chunk's own offset, so an offset error never occurs:
      a non-empty chunk with its true digest is always accepted by the validator, which
      then expects the offset where the chunk ends. */
  lemma ApplyNeverOffsetError(st: IngestState, s: Stream, root: Path, sha: Hasher, shouldFail: bool,
                              offset: nat, bytes: Bytes, hash: string, io: IoFault)
    ensures var (r, st') := Apply(st, s, root, sha, shouldFail, offset, bytes, hash, io);
      (r.Err? && r.error.Validation? ==> r.error.chunk.EmptyChunk? || r.error.chunk.HashMismatch?) &&
      (bytes != [] && hash == sha(bytes) ==> st'.next == offset + |bytes|) &&
      (r.Ok? ==> r.value == offset + |bytes|)
  {
  }

  /** A chunk that fails validation touches neither the content store nor the backend. */
  lemma ValidationFailureUntouched(st: IngestState, s: Stream, root: Path, sha: Hasher, shouldFail: bool,
                                   offset: nat, bytes: Bytes, hash: string, io: IoFault)
    requires bytes == [] || hash != sha(bytes)
    ensures var (r, st') := Apply(st, s, root, sha, shouldFail, offset, bytes, hash, io);
      st' == st &&
      r == Err(Validation(if bytes == [] then EmptyChunk else HashMismatch(hash, sha(bytes))))
  {
  }

  /** A failing backend makes an otherwise good chunk fail with a backend error; the
      validator has still advanced and the blob is still stored, but nothing is persisted. */
  lemma BackendFailurePropagated(st: IngestState, s: Stream, root: Path, sha: Hasher,
                                 offset: nat, bytes: Bytes, io: IoFault)
    requires bytes != [] && PutOutcome(root, st.files, sha, bytes, io).0.Ok?
    ensures var (r, st') := Apply(st, s, root, sha, true, offset, bytes, sha(bytes), io);
      r == Err(Backend(SIMULATED_FAILURE)) && st'.persisted == st.persisted &&
      st'.next == offset + |bytes| && st'.files == PutOutcome(root, st.files, sha, bytes, io).1
  {
  }

  /** Applying the same chunk twice succeeds both times with the same result and leaves
      exactly the state one application leaves: one persisted record for its identity. */
  lemma ReapplyIdempotent(st: IngestState, s: Stream, root: Path, sha: Hasher,
                          offset: nat, bytes: Bytes, io1: IoFault, io2: IoFault)
    requires Apply(st, s, root, sha, false, offset, bytes, sha(bytes), io1).0.Ok?
    ensures var (r1, st1) := Apply(st, s, root, sha, false, offset, bytes, sha(bytes), io1);
      Apply(st1, s, root, sha, false, offset, bytes, sha(bytes), io2) == (r1, st1) &&
      st1.persisted == st.persisted + {IdAt(s, offset)}
  {
    var (r1, st1) := Apply(st, s, root, sha, false, offset, bytes, sha(bytes), io1);
    PutTwice(root, st.files, sha, bytes, io1, io2);
    assert st1.persisted + {IdAt(s, offset)} == st1.persisted;
  }

  /** The results and final state of applying a run of submissions with a healthy
      filesystem. */
  function ApplyAll(st: IngestState, s: Stream, root: Path, sha: Hasher, shouldFail: bool, subs: seq<Submission>)
    : (o: (seq<Result<nat, IngestError>>, IngestState))
    ensures |o.0| == |subs|
    decreases |subs|
  {
    if subs == [] then ([], st)
    else
      var (r, st1) := Apply(st, s, root, sha, shouldFail, subs[0].offset, subs[0].bytes, subs[0].hash, NoFault);
      var (rs, st2) := ApplyAll(st1, s, root, sha, shouldFail, subs[1..]);
      ([r] + rs, st2)
  }

  /** The identities of a run of submissions. */
  function Ids(s: Stream, subs: seq<Submission>): set<ChunkId>
    decreases |subs|
  {
    if subs == [] then {} else {IdAt(s, subs[0].offset)} + Ids(s, subs[1..])
  }

  /** Chunks at cumulative offsets all succeed, each returning the running total, and
      each leaves its own record: starting with no records, there are as many records
      as chunks. */
  lemma {:induction false} ApplyCumulative(st: IngestState, s: Stream, root: Path, sha: Hasher, subs: seq<Submission>)
    requires Contiguous(st.next, subs) && Honest(subs, sha)
    requires forall i :: 0 <= i < |subs| ==> ValidHash(sha(subs[i].bytes))
    ensures var (rs, st') := ApplyAll(st, s, root, sha, false, subs);
      AllOk(subs, rs) && st'.next == st.next + SubmittedLength(subs) &&
      st'.persisted == st.persisted + Ids(s, subs) &&
      (st.persisted == {} ==> |st'.persisted| == |subs|)
    decreases |subs|
  {
    if subs != [] {
      var tail := subs[1..];
      ApplyFirst(st, s, root, sha, subs[0]);
      var (r, st1) := Apply(st, s, root, sha, false, subs[0].offset, subs[0].bytes, subs[0].hash, NoFault);
      TailHonest(subs, sha);
      ApplyCumulative(st1, s, root, sha, tail);
      var (rs, st2) := ApplyAll(st1, s, root, sha, false, tail);
      assert ApplyAll(st, s, root, sha, false, subs) == ([r] + rs, st2);
      AllOkCons(subs, r, rs);
      if st.persisted == {} {
        IdsAfter(s, st.next, subs);
      }
    }
  }

  /** A good first submission at the expected offset is accepted and recorded. */
  lemma ApplyFirst(st: IngestState, s: Stream, root: Path, sha: Hasher, sub: Submission)
    requires sub.offset == st.next && sub.bytes != [] && sub.hash == sha(sub.bytes) && ValidHash(sha(sub.bytes))
    ensures var (r, st1) := Apply(st, s, root, sha, false, sub.offset, sub.bytes, sub.hash, NoFault);
      r == Ok(st.next + |sub.bytes|) && st1.next == st.next + |sub.bytes| &&
      st1.persisted == st.persisted + {IdAt(s, st.next)}
  {
  }

  lemma TailHonest(subs: seq<Submission>, sha: Hasher)
    requires subs != [] && Honest(subs, sha)
    requires forall i :: 0 <= i < |subs| ==> ValidHash(sha(subs[i].bytes))
    ensures Honest(subs[1..], sha) && subs[0].bytes != [] && subs[0].hash == sha(subs[0].bytes)
    ensures forall i :: 0 <= i < |subs| - 1 ==> ValidHash(sha(subs[1..][i].bytes))
    ensures ValidHash(sha(subs[0].bytes))
  {
    var tail := subs[1..];
    forall i | 0 <= i < |tail| ensures tail[i].bytes != [] && tail[i].hash == sha(tail[i].bytes) {
      assert tail[i] == subs[i + 1];
    }
    forall i | 0 <= i < |tail| ensures ValidHash(sha(tail[i].bytes)) {
      assert tail[i] == subs[i + 1];
    }
  }

  lemma AllOkCons(subs: seq<Submission>, r: Result<nat, IngestError>, rs: seq<Result<nat, IngestError>>)
    requires subs != [] && r == Ok(subs[0].offset + |subs[0].bytes|) && AllOk(subs[1..], rs)
    ensures AllOk(subs, [r] + rs)
  {
    forall i | 0 <= i < |subs| ensures ([r] + rs)[i] == Ok(subs[i].offset + |subs[i].bytes|) {
      if i > 0 {
        assert ([r] + rs)[i] == rs[i - 1] && subs[i] == subs[1..][i - 1];
      }
    }
  }

  /** The identities of submissions from `start` on all have offsets at least `start`. */
  lemma {:induction false} IdsAfter(s: Stream, start: nat, subs: seq<Submission>)
    requires Contiguous(start, subs)
    requires forall i :: 0 <= i < |subs| ==> subs[i].bytes != []
    ensures forall id :: id in Ids(s, subs) ==> id.offset >= start
    ensures |Ids(s, subs)| == |subs|
    decreases |subs|
  {
    if subs != [] {
      var tail := subs[1..];
      forall i | 0 <= i < |tail| ensures tail[i].bytes != [] {
        assert tail[i] == subs[i + 1];
      }
      IdsAfter(s, start + |subs[0].bytes|, tail);
      assert IdAt(s, start) !in Ids(s, tail);
    }
  }

  /** Every result is success at the offset where its submission ends. */
  predicate AllOk(subs: seq<Submission>, rs: seq<Result<nat, IngestError>>) {
    |rs| == |subs| && forall i :: 0 <= i < |subs| ==> rs[i] == Ok(subs[i].offset + |subs[i].bytes|)
  }
}
