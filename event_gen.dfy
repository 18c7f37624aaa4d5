/** The deterministic chunk generator of the server's test harness
    (server/tests/harness/event_gen.rs). The seeded ChaCha8 generator is a parameter: for
    each seed, the stream of bytes it draws; the SHA-256 digest is a parameter too. */
module EventGen {
  import opened Wrappers
  import opened Bytes
  import opened Cas
  import Chunk

  datatype StreamIdentity = StreamIdentity(collectorId: string, streamId: string, sessionId: nat)

  /** The protocol's `Chunk` message as the generator fills it. */
  datatype ProtoChunk = ProtoChunk(stream: Option<StreamIdentity>, offset: nat, data: Bytes, hash: string)

  /** The byte stream a seeded generator draws, byte by byte. */
  type Rng = nat -> (nat -> byte)

  /** The `i`-th chunk: the next `size` bytes of the seed's stream, at offset `i * size`,
      with their digest, on the given stream. */
  function ChunkAt(id: StreamIdentity, i: nat, size: nat, draws: nat -> byte, sha: Hasher): (c: ProtoChunk)
    ensures c.stream == Some(id) && c.offset == i * size && |c.data| == size && c.hash == sha(c.data)
    ensures forall j :: 0 <= j < size ==> c.data[j] == draws(i * size + j)
  {
    var data := seq(size, j requires 0 <= j < size => draws(i * size + j));
    ProtoChunk(Some(id), i * size, data, sha(data))
  }

  /** `generate_chunk_sequence`: `n` chunks drawn one after another from the seeded
      generator, the offset advancing by the chunk size each time. The result is fixed by
      the arguments, so the same seed gives the same chunks. */
  method GenerateChunkSequence(collectorId: string, streamId: string, sessionId: nat, n: nat,
                               chunkSize: nat, seed: nat, rng: Rng, sha: Hasher)
    returns (chunks: seq<ProtoChunk>)
    ensures |chunks| == n
    ensures forall i :: 0 <= i < n ==>
              chunks[i] == ChunkAt(StreamIdentity(collectorId, streamId, sessionId), i, chunkSize, rng(seed), sha)
  {
    var draws := rng(seed);
    var drawn := 0;
    var offset := 0;
    chunks := [];
    var id := StreamIdentity(collectorId, streamId, sessionId);
    for k := 0 to n
      invariant |chunks| == k && offset == k * chunkSize && drawn == offset
      invariant forall i :: 0 <= i < k ==> chunks[i] == ChunkAt(id, i, chunkSize, draws, sha)
    {
      var data: Bytes := [];
      for j := 0 to chunkSize
        invariant |data| == j && forall m :: 0 <= m < j ==> data[m] == draws(offset + m)
        invariant drawn == offset + j
      {
        data := data + [draws(drawn)];
        drawn := drawn + 1;
      }
      assert data == ChunkAt(id, k, chunkSize, draws, sha).data;
      chunks := chunks + [ProtoChunk(Some(id), offset, data, sha(data))];
      offset := offset + chunkSize;
    }
  }

  /** `expected_final_offset`. */
  function ExpectedFinalOffset(n: nat, chunkSize: nat): nat {
    n * chunkSize
  }

  /** `collect_hashes`: the chunks' hashes, in the chunks' order. */
  function CollectHashes(chunks: seq<ProtoChunk>): (hs: seq<string>)
    ensures |hs| == |chunks|
    ensures forall i :: 0 <= i < |chunks| ==> hs[i] == chunks[i].hash
  {
    if chunks == [] then [] else [chunks[0].hash] + CollectHashes(chunks[1..])
  }

  /** The generated chunks tile the stream: each starts where the previous one ends, the
      last ends at the expected final offset, and the collected hashes are the digests of
      the chunks' data in order. */
  lemma GeneratedTiles(id: StreamIdentity, n: nat, size: nat, draws: nat -> byte, sha: Hasher)
    ensures var cs := seq(n, i requires 0 <= i < n => ChunkAt(id, i, size, draws, sha));
            (n > 0 ==> cs[0].offset == 0 && cs[n - 1].offset + |cs[n - 1].data| == ExpectedFinalOffset(n, size)) &&
            (forall i :: 0 <= i < n - 1 ==> cs[i + 1].offset == cs[i].offset + |cs[i].data|) &&
            (forall i :: 0 <= i < n ==> CollectHashes(cs)[i] == sha(cs[i].data))
  {
    forall i | 0 <= i < n ensures (i + 1) * size == i * size + size {
    }
  }

  /** The submissions the generated chunks make to the upload validator. */
  function Submissions(cs: seq<ProtoChunk>): (subs: seq<Chunk.Submission>)
    ensures |subs| == |cs|
    ensures forall i :: 0 <= i < |cs| ==> subs[i] == Chunk.Submission(cs[i].offset, cs[i].data, cs[i].hash)
  {
    seq(|cs|, i requires 0 <= i < |cs| => Chunk.Submission(cs[i].offset, cs[i].data, cs[i].hash))
  }

  /** With a non-zero chunk size, the validator accepts every generated chunk, under either
      offset policy, and ends expecting the generator's final offset. */
  lemma GeneratedAccepted(id: StreamIdentity, n: nat, size: nat, draws: nat -> byte, sha: Hasher,
                          policy: Chunk.OffsetPolicy)
    requires size > 0
    ensures var subs := Submissions(seq(n, i requires 0 <= i < n => ChunkAt(id, i, size, draws, sha)));
            Chunk.Run(0, subs, policy, sha).1 == ExpectedFinalOffset(n, size) &&
            Chunk.AllAccepted(subs, Chunk.Run(0, subs, policy, sha).0)
  {
    var cs := seq(n, i requires 0 <= i < n => ChunkAt(id, i, size, draws, sha));
    var subs := Submissions(cs);
    UniformContiguous(0, subs, size);
    Chunk.ContiguousAlwaysAdvances(0, subs, policy, sha);
  }

  /** Submissions of `size` bytes each at offsets `start`, `start + size`, ... follow one
      another and add up to their number times the size. */
  lemma {:induction false} UniformContiguous(start: nat, subs: seq<Chunk.Submission>, size: nat)
    requires forall i :: 0 <= i < |subs| ==> subs[i].offset == start + i * size && |subs[i].bytes| == size
    ensures Chunk.Contiguous(start, subs)
    ensures Chunk.SubmittedLength(subs) == |subs| * size
    decreases |subs|
  {
    if subs != [] {
      var tail := subs[1..];
      forall i | 0 <= i < |tail| ensures tail[i].offset == (start + size) + i * size && |tail[i].bytes| == size {
        assert tail[i] == subs[i + 1];
        assert (i + 1) * size == i * size + size;
      }
      UniformContiguous(start + size, tail, size);
      assert (|subs| - 1) * size + size == |subs| * size;
    }
  }
}
