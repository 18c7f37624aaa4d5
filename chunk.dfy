/** The resumable-upload offset validator (`ChunkOffsetValidator`, common/utils/src/chunk.rs).
    The validator remembers the next byte offset it expects in a stream; a chunk is
    accepted when it is non-empty, its declared hash is the digest of its bytes, and it
    starts at the expected offset (or, under the resume policy, at the one offset the
    caller allows). Offsets are unbounded naturals: `u64` overflow is not modelled. */
module Chunk {
  import opened Wrappers
  import opened Bytes
  import opened Decimal
  import opened Cas

  datatype OffsetPolicy = Strict | Resume(allowOffset: nat)

  datatype ChunkError =
    | EmptyChunk
    | HashMismatch(expectedHash: string, actualHash: string)
    | OffsetOverlap(expected: nat, actual: nat)
    | OffsetGap(expected: nat, actual: nat)

  /** The `Display` text of a chunk error. */
  function ErrorText(e: ChunkError): string {
    match e
    case EmptyChunk => "empty chunk is not allowed"
    case HashMismatch(x, a) => "hash mismatch: expected " + x + ", actual " + a
    case OffsetOverlap(x, a) =>
      "offset overlap: expected " + NatToString(x) + ", actual " + NatToString(a)
    case OffsetGap(x, a) =>
      "offset gap: expected " + NatToString(x) + ", actual " + NatToString(a)
  }

  /** One `validate_chunk` call against a validator expecting `next`: the result, and the
      next expected offset afterwards. */
  function Validate(next: nat, offset: nat, bytes: Bytes, declared: string, policy: OffsetPolicy, sha: Hasher)
    : (o: (Result<nat, ChunkError>, nat))
    ensures bytes == [] ==> o.0 == Err(EmptyChunk)
    ensures bytes != [] && sha(bytes) != declared ==> o.0 == Err(HashMismatch(declared, sha(bytes)))
    ensures o.0.Ok? <==>
              bytes != [] && sha(bytes) == declared &&
              (offset == next || (policy.Resume? && offset == policy.allowOffset))
    ensures o.0.Ok? ==> o.0.value == offset + |bytes| == o.1
    ensures o.0.Err? ==> o.1 == next
    ensures o.0.Err? && bytes != [] && sha(bytes) == declared ==>
              o.0 == (if offset > next then Err(OffsetGap(next, offset)) else Err(OffsetOverlap(next, offset)))
  {
    if bytes == [] then (Err(EmptyChunk), next)
    else if sha(bytes) != declared then (Err(HashMismatch(declared, sha(bytes))), next)
    else if offset == next then (Ok(next + |bytes|), next + |bytes|)
    else match policy
      case Strict =>
        if offset > next then (Err(OffsetGap(next, offset)), next)
        else (Err(OffsetOverlap(next, offset)), next)
      case Resume(allow) =>
        if offset == allow then (Ok(offset + |bytes|), offset + |bytes|)
        else if offset > next then (Err(OffsetGap(next, offset)), next)
        else (Err(OffsetOverlap(next, offset)), next)
  }

  class ChunkOffsetValidator {
    var nextOffset: nat

    /** `ChunkOffsetValidator::new`. */
    constructor (startOffset: nat)
      ensures nextOffset == startOffset
    {
      nextOffset := startOffset;
    }

    /** `next_offset`. */
    function NextOffset(): nat
      reads this
    {
      nextOffset
    }

    /** `validate_chunk`. */
    method ValidateChunk(offset: nat, bytes: Bytes, declared: string, policy: OffsetPolicy, sha: Hasher)
      returns (r: Result<nat, ChunkError>)
      modifies this
      ensures (r, nextOffset) == Validate(old(nextOffset), offset, bytes, declared, policy, sha)
    {
      if |bytes| == 0 {
        return Err(EmptyChunk);
      }
      var actual := sha(bytes);
      if actual != declared {
        return Err(HashMismatch(declared, actual));
      }
      var expected := nextOffset;
      if offset == expected {
        nextOffset := expected + |bytes|;
        return Ok(nextOffset);
      }
      match policy {
        case Strict =>
          if offset > expected {
            r := Err(OffsetGap(expected, offset));
          } else {
            r := Err(OffsetOverlap(expected, offset));
          }
        case Resume(allow) =>
          if offset == allow {
            nextOffset := offset + |bytes|;
            r := Ok(nextOffset);
          } else if offset > expected {
            r := Err(OffsetGap(expected, offset));
          } else {
            r := Err(OffsetOverlap(expected, offset));
          }
      }
    }
  }

  /** The total length of a sequence of chunks. */
  function TotalLength(chunks: seq<Bytes>): nat {
    if chunks == [] then 0 else |chunks[0]| + TotalLength(chunks[1..])
  }

  /** One submission to the validator: offset, bytes, declared hash. */
  datatype Submission = Submission(offset: nat, bytes: Bytes, hash: string)

  /** Each submission starts where the previous one ended, the first at `start`. */
  predicate Contiguous(start: nat, subs: seq<Submission>)
    decreases |subs|
  {
    subs == [] || (subs[0].offset == start && Contiguous(start + |subs[0].bytes|, subs[1..]))
  }

  /** The total length of the submitted bytes. */
  function SubmittedLength(subs: seq<Submission>): nat
    decreases |subs|
  {
    if subs == [] then 0 else |subs[0].bytes| + SubmittedLength(subs[1..])
  }

  /** Every submission is non-empty and declares its true digest. */
  predicate Honest(subs: seq<Submission>, sha: Hasher) {
    forall i :: 0 <= i < |subs| ==> subs[i].bytes != [] && subs[i].hash == sha(subs[i].bytes)
  }

  /** Submitting the chunks one after another from `start`, each with its true digest and
      at the offset where the previous one ended. */
  function Sequential(start: nat, chunks: seq<Bytes>, sha: Hasher): (subs: seq<Submission>)
    ensures |subs| == |chunks|
    ensures forall i :: 0 <= i < |chunks| ==> subs[i].bytes == chunks[i] && subs[i].hash == sha(chunks[i])
    ensures Contiguous(start, subs)
    ensures SubmittedLength(subs) == TotalLength(chunks)
    decreases |chunks|
  {
    if chunks == [] then []
    else
      var tail := Sequential(start + |chunks[0]|, chunks[1..], sha);
      var subs := [Submission(start, chunks[0], sha(chunks[0]))] + tail;
      assert subs[1..] == tail;
      subs
  }

  /** The results and the final next offset of a run of submissions under one policy. */
  function Run(next: nat, subs: seq<Submission>, policy: OffsetPolicy, sha: Hasher)
    : (o: (seq<Result<nat, ChunkError>>, nat))
    ensures |o.0| == |subs|
    decreases |subs|
  {
    if subs == [] then ([], next)
    else
      var (r, n) := Validate(next, subs[0].offset, subs[0].bytes, subs[0].hash, policy, sha);
      var (rs, f) := Run(n, subs[1..], policy, sha);
      ([r] + rs, f)
  }

  /** Every result is the acceptance of its submission, at the offset where it ends. */
  predicate AllAccepted(subs: seq<Submission>, rs: seq<Result<nat, ChunkError>>) {
    |rs| == |subs| && forall i :: 0 <= i < |subs| ==> rs[i] == Ok(subs[i].offset + |subs[i].bytes|)
  }

  /** Non-empty chunks with their true digests, submitted at cumulative offsets, are all
      accepted under either policy: each result is the offset where the chunk ends, and
      the validator ends at the start plus the total length. */
  lemma {:induction false} ContiguousAlwaysAdvances(start: nat, subs: seq<Submission>, policy: OffsetPolicy, sha: Hasher)
    requires Contiguous(start, subs) && Honest(subs, sha)
    ensures Run(start, subs, policy, sha).1 == start + SubmittedLength(subs)
    ensures AllAccepted(subs, Run(start, subs, policy, sha).0)
    decreases |subs|
  {
    if subs != [] {
      var n := start + |subs[0].bytes|;
      var tail := subs[1..];
      assert Honest(tail, sha) by {
        forall i | 0 <= i < |tail| ensures tail[i].bytes != [] && tail[i].hash == sha(tail[i].bytes) {
          assert tail[i] == subs[i + 1];
        }
      }
      ContiguousAlwaysAdvances(n, tail, policy, sha);
      var rest := Run(n, tail, policy, sha);
      RunCons(start, subs, policy, sha);
      assert Validate(start, start, subs[0].bytes, subs[0].hash, policy, sha) == (Ok(n), n);
      var rs := [Ok(n)] + rest.0;
      assert Run(start, subs, policy, sha) == (rs, rest.1);
      assert AllAccepted(subs, rs) by {
        forall i | 0 <= i < |subs| ensures rs[i] == Ok(subs[i].offset + |subs[i].bytes|) {
          if i > 0 {
            assert rs[i] == rest.0[i - 1] && subs[i] == tail[i - 1];
          }
        }
      }
    }
  }

  /** The test-suite's scenario: chunks sent one after another from `start`. */
  lemma SequentialAlwaysAdvances(start: nat, chunks: seq<Bytes>, policy: OffsetPolicy, sha: Hasher)
    requires forall i :: 0 <= i < |chunks| ==> chunks[i] != []
    ensures var subs := Sequential(start, chunks, sha);
      Run(start, subs, policy, sha).1 == start + TotalLength(chunks) &&
      AllAccepted(subs, Run(start, subs, policy, sha).0)
  {
    ContiguousAlwaysAdvances(start, Sequential(start, chunks, sha), policy, sha);
  }

  lemma RunCons(next: nat, subs: seq<Submission>, policy: OffsetPolicy, sha: Hasher)
    requires subs != []
    ensures var v := Validate(next, subs[0].offset, subs[0].bytes, subs[0].hash, policy, sha);
      Run(next, subs, policy, sha) == ([v.0] + Run(v.1, subs[1..], policy, sha).0, Run(v.1, subs[1..], policy, sha).1)
  {
  }

  /** Retransmitting the chunk just accepted at the resume offset gives the same next
      offset. */
  lemma ResumeRetransmit(next: nat, offset: nat, bytes: Bytes, sha: Hasher, policy: OffsetPolicy)
    requires Validate(next, offset, bytes, sha(bytes), policy, sha).0.Ok?
    ensures var (r1, n1) := Validate(next, offset, bytes, sha(bytes), policy, sha);
      Validate(n1, offset, bytes, sha(bytes), Resume(offset), sha) == (r1, n1)
  {
  }
}
