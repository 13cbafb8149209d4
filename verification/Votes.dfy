/** The signed content of a consensus vote.

    Canonical JSON and SHA-256 are modelled symbolically: a digest is the value
    it was computed from, so equal digests have equal preimages. */
module Votes {
  import opened Prelude

  /** A byte string offered for signing: the canonical vote encoding, or anything else. */
  datatype Payload =
    | CanonicalVote(blockHash: string, chainId: int, height: int, round: int, validatorId: string)
    | OtherBytes(bytes: Bytes)

  datatype PayloadDigest = PayloadDigest(payload: Payload)

  /** The digest of a signing payload followed by its signature. */
  datatype VoteHash = VoteHash(payload: Payload, signature: Bytes)

  datatype Vote = Vote(
    chainId: int,
    height: int,
    round: int,
    blockHash: string,
    validatorId: string,
    signature: Bytes)
  {
    function SigningPayload(): Payload {
      CanonicalVote(Lower(blockHash), chainId, height, round, validatorId)
    }

    function Hash(): VoteHash {
      VoteHash(SigningPayload(), signature)
    }
  }
}
