/** Which snapshot descriptors can be built and which snapshots are accepted, with every condition
    written out. */
module SnapshotReplies {
  import opened ForkChoice
  import opened Prelude
  import opened Snapshot

  /** The descriptor's fields are in their form. */
  ghost predicate InForm(d: Descriptor) {
    && 1 <= d.chainId && 0 <= d.height && 1 <= |d.chunkHashes|
    && (forall text | text in {d.blockHash, d.stateRoot, d.checkpoint} :: IsHash(text))
    && (forall text | text in d.chunkHashes :: IsHash(text))
  }

  lemma ValidIff(d: Descriptor)
    ensures d.Valid() <==> InForm(d)
  {
    if InForm(d) {
      assert d.blockHash in {d.blockHash, d.stateRoot, d.checkpoint};
      assert d.stateRoot in {d.blockHash, d.stateRoot, d.checkpoint};
      assert d.checkpoint in {d.blockHash, d.stateRoot, d.checkpoint};
      assert forall i | 0 <= i < |d.chunkHashes| :: d.chunkHashes[i] in d.chunkHashes;
    }
  }

  /** A descriptor is built exactly when there are chunks and the numbers and hashes are in their form; it
      lists the hashes of the chunks in their order and the checkpoint over them. */
  lemma BuiltIff(h: Hasher, chainId: int, height: int, block: string, stateRoot: string, chunks: seq<Bytes>)
    requires WritesHashes(h)
    ensures var r := Build(h, chainId, height, block, stateRoot, chunks);
            && (r.Ok? <==> 1 <= chainId && 0 <= height && chunks != [] && IsHash(block) && IsHash(stateRoot))
            && (r.Ok? ==>
                  && (r.value.chainId, r.value.height, r.value.blockHash, r.value.stateRoot) ==
                     (chainId, height, block, stateRoot)
                  && |r.value.chunkHashes| == |chunks|
                  && (forall i | 0 <= i < |chunks| :: r.value.chunkHashes[i] == h(ChunkBytes(chunks[i])))
                  && r.value.checkpoint == h(CheckpointBytes(chainId, height, Lower(block), Lower(stateRoot),
                                                             r.value.chunkHashes, Concat(chunks))))
            && (r.Err? ==> r.error == InvalidDescriptor)
  {
    var hashes := HashesOf(h, chunks);
    var zeros := "0x" + DigitText('0', 64);
    forall i | 0 <= i < |hashes|
      ensures IsHash(hashes[i])
    {
      CanonicalHashIsLower(hashes[i]);
    }
    assert zeros[2..] == DigitText('0', 64);
    CanonicalHashIsLower(h(CheckpointBytes(chainId, height, Lower(block), Lower(stateRoot), hashes, Concat(chunks))));
  }

  /** A snapshot is accepted exactly when descriptor and claim are of this chain and agree on height, block
      and state root, every listed hash is that of the chunk at its place, no chunk exceeds 2 MiB, and the
      checkpoint covers it all; hashes are compared in any case. */
  lemma AcceptedIff(h: Hasher, chainId: int, d: Descriptor, chunks: seq<Bytes>, finalized: Claim)
    ensures Accepts(h, chainId, d, chunks, finalized) <==>
              && d.chainId == chainId && finalized.chainId == chainId && d.height == finalized.height
              && Lower(d.blockHash) == Lower(finalized.blockHash) && Lower(d.stateRoot) == Lower(finalized.stateRoot)
              && |chunks| == |d.chunkHashes|
              && (forall i | 0 <= i < |chunks| ::
                    |chunks[i]| <= 2097152 && Lower(d.chunkHashes[i]) == h(ChunkBytes(chunks[i])))
              && Lower(d.checkpoint) == h(CheckpointBytes(d.chainId, d.height, Lower(d.blockHash), Lower(d.stateRoot),
                                                          d.chunkHashes, Concat(chunks)))
  {
    if |chunks| == |d.chunkHashes| {
      forall i | 0 <= i < |chunks|
        ensures Fits(h, chunks[i], d.chunkHashes[i]) <==>
                |chunks[i]| <= 2097152 && Lower(d.chunkHashes[i]) == h(ChunkBytes(chunks[i]))
      {
      }
    }
  }
}
