/** Snapshot descriptors and their verification against a finalized claim. */
module Snapshot {
  import opened ForkChoice
  import opened Prelude

  /** What is hashed: a chunk, or the checkpoint of a descriptor with all the chunks. */
  datatype Preimage =
    | ChunkBytes(chunk: Bytes)
    | CheckpointBytes(chainId: int, height: int, block: string, stateRoot: string, chunkHashes: seq<string>,
                      data: Bytes)

  /** SHA-256, as text. */
  type Hasher = Preimage -> string

  datatype Descriptor = Descriptor(
    chainId: int,
    height: int,
    blockHash: string,
    stateRoot: string,
    checkpoint: string,
    chunkHashes: seq<string>)
  {
    /** The checks of the descriptor's own constructor. */
    predicate Valid() {
      && 0 < chainId && 0 <= height && chunkHashes != []
      && IsHash(blockHash) && IsHash(stateRoot) && IsHash(checkpoint)
      && forall i | 0 <= i < |chunkHashes| :: IsHash(chunkHashes[i])
    }
  }

  datatype CatchupResult = CatchupResult(targetHeight: int, verifiedBytes: nat)

  datatype CatchupError =
    | InvalidDescriptor
    | ChainIdMismatch
    | NotTheClaim
    | ChunkCountMismatch
    | ChunkOversized
    | ChunkDigestMismatch
    | CheckpointMismatch

  const MAX_CHUNK := 2 * 1024 * 1024

  function Concat(chunks: seq<Bytes>): Bytes {
    if chunks == [] then [] else Concat(chunks[..|chunks| - 1]) + chunks[|chunks| - 1]
  }

  function HashesOf(h: Hasher, chunks: seq<Bytes>): (r: seq<string>)
    ensures |r| == |chunks| && forall i | 0 <= i < |r| :: r[i] == h(ChunkBytes(chunks[i]))
  {
    if chunks == [] then [] else HashesOf(h, chunks[..|chunks| - 1]) + [h(ChunkBytes(chunks[|chunks| - 1]))]
  }

  /** The checkpoint covers the chunk hashes as the descriptor spells them. */
  function Checkpoint(h: Hasher, d: Descriptor, chunks: seq<Bytes>): string {
    h(CheckpointBytes(d.chainId, d.height, Lower(d.blockHash), Lower(d.stateRoot), d.chunkHashes, Concat(chunks)))
  }

  function Build(h: Hasher, chainId: int, height: int, blockHash: string, stateRoot: string, chunks: seq<Bytes>)
    : Result<Descriptor, CatchupError>
  {
    var provisional := Descriptor(chainId, height, blockHash, stateRoot, "0x" + DigitText('0', 64),
                                  HashesOf(h, chunks));
    var built := provisional.(checkpoint := Checkpoint(h, provisional, chunks));
    if provisional.Valid() && built.Valid() then Ok(built) else Err(InvalidDescriptor)
  }

  predicate Binds(d: Descriptor, finalized: Claim) {
    && d.height == finalized.height && SameBlock(d.blockHash, finalized.blockHash)
    && Lower(d.stateRoot) == Lower(finalized.stateRoot)
  }

  /** The chunk is not too long and has this hash, in whatever case the hash is written. */
  predicate Fits(h: Hasher, chunk: Bytes, hash: string) {
    |chunk| <= MAX_CHUNK && h(ChunkBytes(chunk)) == Lower(hash)
  }

  method Verify(h: Hasher, chainId: int, d: Descriptor, chunks: seq<Bytes>, finalized: Claim)
    returns (r: Result<CatchupResult, CatchupError>)
    ensures r.Ok? <==> Accepts(h, chainId, d, chunks, finalized)
    ensures r.Ok? ==> r.value == CatchupResult(finalized.height, TotalLength(chunks))
    ensures RefusedFor(h, chainId, d, chunks, finalized, r)
  {
    if d.chainId != chainId || finalized.chainId != chainId { return Err(ChainIdMismatch); }
    if d.height != finalized.height || Lower(d.blockHash) != Lower(finalized.blockHash)
       || Lower(d.stateRoot) != Lower(finalized.stateRoot) {
      return Err(NotTheClaim);
    }
    if |chunks| != |d.chunkHashes| { return Err(ChunkCountMismatch); }
    var verified := 0;
    for i := 0 to |chunks|
      invariant forall j | 0 <= j < i :: Fits(h, chunks[j], d.chunkHashes[j])
      invariant verified == TotalLength(chunks[..i])
    {
      assert chunks[..i + 1][..i] == chunks[..i];
      if |chunks[i]| > MAX_CHUNK { return Err(ChunkOversized); }
      if h(ChunkBytes(chunks[i])) != Lower(d.chunkHashes[i]) { return Err(ChunkDigestMismatch); }
      verified := verified + |chunks[i]|;
    }
    assert chunks[..|chunks|] == chunks;
    if Checkpoint(h, d, chunks) != Lower(d.checkpoint) { return Err(CheckpointMismatch); }
    return Ok(CatchupResult(d.height, verified));
  }

  function TotalLength(chunks: seq<Bytes>): nat {
    if chunks == [] then 0 else TotalLength(chunks[..|chunks| - 1]) + |chunks[|chunks| - 1]|
  }

  /** The first chunk that does not fit, if there is one, is too long or not. */
  ghost predicate FirstMisfit(h: Hasher, d: Descriptor, chunks: seq<Bytes>, tooLong: bool) {
    exists i :: 0 <= i < |chunks| && i < |d.chunkHashes| && MisfitAt(h, d, chunks, i)
             && (tooLong <==> |chunks[i]| > 2 * 1024 * 1024)
  }

  ghost predicate MisfitAt(h: Hasher, d: Descriptor, chunks: seq<Bytes>, i: nat)
    requires i < |chunks| && i < |d.chunkHashes|
  {
    && !Fits(h, chunks[i], d.chunkHashes[i])
    && forall j | 0 <= j < i :: Fits(h, chunks[j], d.chunkHashes[j])
  }

  /** Each refusal says which check is the first to fail. */
  ghost predicate RefusedFor(h: Hasher, chainId: int, d: Descriptor, chunks: seq<Bytes>, finalized: Claim,
                             r: Result<CatchupResult, CatchupError>)
  {
    var ours := d.chainId == chainId && finalized.chainId == chainId;
    var bound := ours && Binds(d, finalized);
    && (r == Err(ChainIdMismatch) <==> !ours)
    && (r == Err(NotTheClaim) <==> ours && !Binds(d, finalized))
    && (r == Err(ChunkCountMismatch) <==> bound && |chunks| != |d.chunkHashes|)
    && (r == Err(ChunkOversized) <==> bound && |chunks| == |d.chunkHashes| && FirstMisfit(h, d, chunks, true))
    && (r == Err(ChunkDigestMismatch) <==> bound && |chunks| == |d.chunkHashes| && FirstMisfit(h, d, chunks, false))
    && r != Err(InvalidDescriptor)
  }

  /** What a verified snapshot is: the finalized claim's chain, height, block and state, with
      exactly the chunks the descriptor commits to. */
  ghost predicate Accepts(h: Hasher, chainId: int, d: Descriptor, chunks: seq<Bytes>, finalized: Claim) {
    && d.chainId == chainId == finalized.chainId
    && Binds(d, finalized)
    && |chunks| == |d.chunkHashes|
    && (forall i | 0 <= i < |chunks| :: Fits(h, chunks[i], d.chunkHashes[i]))
    && Lower(d.checkpoint) == Checkpoint(h, d, chunks)
  }

  /** Two different chunks at one place with one hash. */
  ghost predicate Collide(h: Hasher, chunks: seq<Bytes>, chunks': seq<Bytes>) {
    exists i :: 0 <= i < |chunks| && i < |chunks'|
             && chunks[i] != chunks'[i] && h(ChunkBytes(chunks[i])) == h(ChunkBytes(chunks'[i]))
  }

  /** Two lists of chunks that one descriptor accepts are the same, or hold a hash collision. */
  lemma AcceptedChunksUnique(h: Hasher, chainId: int, d: Descriptor, chunks: seq<Bytes>, chunks': seq<Bytes>,
                             finalized: Claim)
    requires Accepts(h, chainId, d, chunks, finalized) && Accepts(h, chainId, d, chunks', finalized)
    ensures chunks == chunks' || Collide(h, chunks, chunks')
  {
    if chunks != chunks' {
      var i :| 0 <= i < |chunks| && chunks[i] != chunks'[i];
      assert Fits(h, chunks[i], d.chunkHashes[i]) && Fits(h, chunks'[i], d.chunkHashes[i]);
    }
  }

  /** Hashes are written with 64 lower-case digits. */
  ghost predicate WritesHashes(h: Hasher) {
    forall p :: IsCanonicalHash(h(p))
  }

  /** What a built descriptor accepts against the claim it was built for: the very chunks it
      was built from, provided none exceeds 2 MiB; building itself does not check that. */
  lemma BuiltDescriptorAccepts(h: Hasher, chainId: int, height: int, blockHash: string, stateRoot: string,
                               chunks: seq<Bytes>, chunks': seq<Bytes>, finalized: Claim)
    requires WritesHashes(h) && !Collide(h, chunks, chunks')
    requires var built := Build(h, chainId, height, blockHash, stateRoot, chunks);
             built.Ok? && finalized.chainId == chainId && Binds(built.value, finalized)
    ensures Accepts(h, chainId, Build(h, chainId, height, blockHash, stateRoot, chunks).value, chunks', finalized) <==>
            chunks' == chunks && forall i | 0 <= i < |chunks| :: |chunks[i]| <= MAX_CHUNK
  {
    var d := Build(h, chainId, height, blockHash, stateRoot, chunks).value;
    CanonicalHashIsLower(d.checkpoint);
    forall i | 0 <= i < |chunks|
      ensures Lower(d.chunkHashes[i]) == h(ChunkBytes(chunks[i]))
    {
      CanonicalHashIsLower(d.chunkHashes[i]);
    }
    if Accepts(h, chainId, d, chunks', finalized) {
      forall i | 0 <= i < |chunks|
        ensures chunks'[i] == chunks[i] && |chunks[i]| <= MAX_CHUNK
      {
        assert Fits(h, chunks'[i], d.chunkHashes[i]);
      }
    }
  }

  /** Chunk hashes are compared in any case, but the checkpoint covers their text: a descriptor
      that only spells them in another way accepts the same chunks exactly when that leaves the
      checkpoint hash as it was. */
  lemma SpellingIsCommitted(h: Hasher, chainId: int, d: Descriptor, spelled: seq<string>, chunks: seq<Bytes>,
                            finalized: Claim)
    requires Accepts(h, chainId, d, chunks, finalized) && |spelled| == |d.chunkHashes|
    requires forall i | 0 <= i < |spelled| :: Lower(spelled[i]) == Lower(d.chunkHashes[i])
    ensures var other := d.(chunkHashes := spelled);
            Accepts(h, chainId, other, chunks, finalized) <==> Checkpoint(h, other, chunks) == Checkpoint(h, d, chunks)
  {
    var other := d.(chunkHashes := spelled);
    forall i | 0 <= i < |chunks|
      ensures Fits(h, chunks[i], other.chunkHashes[i])
    {
      assert Fits(h, chunks[i], d.chunkHashes[i]);
    }
  }
}
