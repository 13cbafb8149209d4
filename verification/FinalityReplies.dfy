/** What one vote is answered, and what it leaves, told without following the machine's branches. */
module FinalityReplies {
  import opened Finality
  import opened Prelude
  import opened Votes
  import opened Weights

  /** The heights that may be voted on: the latest finalized one, or the checkpoint if there is none,
      and the one above it. */
  ghost predicate Open(c: Committee, m: Machine, height: int) {
    exists latest :: IsLatest(c, m, latest) && latest <= height <= latest + 1
  }

  ghost predicate IsLatest(c: Committee, m: Machine, latest: int) {
    if m.finalized == map[] then latest == c.checkpoint
    else latest in m.finalized && forall h | h in m.finalized :: h <= latest
  }

  lemma LatestIsLatest(c: Committee, m: Machine, latest: int)
    ensures IsLatest(c, m, latest) <==> latest == LatestFinalized(c, m.finalized)
  {
    if m.finalized != map[] {
      assert LatestFinalized(c, m.finalized) in m.finalized;
    }
  }

  lemma OpenIff(c: Committee, m: Machine, height: int)
    ensures Open(c, m, height) <==> LatestFinalized(c, m.finalized) <= height <= LatestFinalized(c, m.finalized) + 1
  {
    LatestIsLatest(c, m, LatestFinalized(c, m.finalized));
    if latest :| IsLatest(c, m, latest) && latest <= height <= latest + 1 {
      LatestIsLatest(c, m, latest);
    }
  }

  /** A vote that validation lets through. */
  ghost predicate Passes(c: Committee, m: Machine, vote: Vote, verified: bool) {
    && vote.chainId == c.chainId && 0 <= vote.height && 0 <= vote.round && IsHash(vote.blockHash)
    && vote.validatorId in c.powers && 1 <= |vote.signature| <= 4096 && verified
    && Open(c, m, vote.height)
  }

  /** The validator has voted for another block at this height and round. */
  ghost predicate Contradicts(m: Machine, vote: Vote) {
    var id := (vote.height, vote.round, vote.validatorId);
    id in m.votes && Lower(m.votes[id].blockHash) != Lower(vote.blockHash)
  }

  ghost predicate FinalizedOther(m: Machine, vote: Vote) {
    vote.height in m.finalized && m.finalized[vote.height].blockHash != Lower(vote.blockHash)
  }

  lemma RefusalNoneIff(c: Committee, m: Machine, vote: Vote, verified: bool)
    ensures Refusal(c, m, vote, verified).None? <==> Passes(c, m, vote, verified)
  {
    OpenIff(c, m, vote.height);
  }

  /** A vote is accepted exactly when it passes validation and contradicts neither what is finalized
      nor, while its height is open, what its validator voted before. The answer is the certificate
      of the height if there is one now. */
  lemma AcceptedIff(c: Committee, m: Machine, vote: Vote, verified: bool)
    requires c.Valid() && Invariant(c, m)
    ensures var (m', reply) := AddVote(c, m, vote, verified);
            && (reply.Ok? <==>
                  && Passes(c, m, vote, verified) && !FinalizedOther(m, vote)
                  && (vote.height !in m.finalized ==> !Contradicts(m, vote)))
            && (reply.Ok? ==>
                  reply.value == if vote.height in m'.finalized then Some(m'.finalized[vote.height]) else None)
  {
    RefusalNoneIff(c, m, vote, verified);
    LateGuardsNeverFire(c, m, vote, verified);
  }

  /** Before the machine is looked at, each refusal is given exactly when its check is the first that
      fails. */
  lemma RefusedEarlyIff(c: Committee, m: Machine, vote: Vote, verified: bool)
    ensures var refusal := Refusal(c, m, vote, verified);
            var placed := vote.chainId == c.chainId && 0 <= vote.height && 0 <= vote.round;
            && (refusal == Some(ChainMismatch) <==> vote.chainId != c.chainId)
            && (refusal == Some(NegativeHeightOrRound) <==>
                  vote.chainId == c.chainId && (vote.height < 0 || vote.round < 0))
            && (refusal == Some(MalformedBlockHash) <==> placed && !IsHash(vote.blockHash))
            && (refusal == Some(UnknownValidator) <==>
                  placed && IsHash(vote.blockHash) && vote.validatorId !in c.powers)
            && (refusal == Some(SignatureLength) <==>
                  && placed && IsHash(vote.blockHash) && vote.validatorId in c.powers
                  && (vote.signature == [] || |vote.signature| > 4096))
            && (refusal == Some(SignatureRejected) <==> Admissible(c, vote) && !verified)
  {
  }

  /** The refusals of validation. */
  predicate IsRefusal(e: FinalityError) {
    e !in {ConflictsWithFinalized, EquivocationDetected, FinalizedDifferently, NotContiguous}
  }

  lemma RefusedIff(c: Committee, m: Machine, vote: Vote, verified: bool, e: FinalityError)
    requires IsRefusal(e)
    ensures AddVote(c, m, vote, verified).1 == Err(e) <==> Refusal(c, m, vote, verified) == Some(e)
  {
  }

  lemma HeightRefusedIff(c: Committee, m: Machine, vote: Vote, verified: bool)
    requires GapFree(c, m.finalized)
    ensures var (refusal, sound) := (Refusal(c, m, vote, verified), Admissible(c, vote) && verified);
            && (refusal == Some(BelowHead) <==>
                  sound && forall latest | IsLatest(c, m, latest) :: vote.height < latest)
            && (refusal == Some(NotNextHeight) <==>
                  sound && forall latest | IsLatest(c, m, latest) :: vote.height > latest + 1)
  {
    LatestIsLatest(c, m, LatestFinalized(c, m.finalized));
    forall latest
      ensures IsLatest(c, m, latest) <==> latest == LatestFinalized(c, m.finalized)
    {
      LatestIsLatest(c, m, latest);
    }
  }

  lemma ConflictRefusedIff(c: Committee, m: Machine, vote: Vote, verified: bool)
    requires c.Valid() && Invariant(c, m)
    ensures var reply := AddVote(c, m, vote, verified).1;
            && (reply == Err(ConflictsWithFinalized) <==> Passes(c, m, vote, verified) && FinalizedOther(m, vote))
            && (reply == Err(EquivocationDetected) <==>
                  Passes(c, m, vote, verified) && vote.height !in m.finalized && Contradicts(m, vote))
  {
    RefusalNoneIff(c, m, vote, verified);
    LateGuardsNeverFire(c, m, vote, verified);
  }

  /** Why a sound vote is refused: for its height, for the block finalized there, or, while its height is
      open, for its validator's earlier vote. */
  lemma RefusedLaterIff(c: Committee, m: Machine, vote: Vote, verified: bool)
    requires c.Valid() && Invariant(c, m)
    ensures var reply := AddVote(c, m, vote, verified).1;
            var sound := Admissible(c, vote) && verified;
            && (reply == Err(BelowHead) <==> sound && forall latest | IsLatest(c, m, latest) :: vote.height < latest)
            && (reply == Err(NotNextHeight) <==>
                  sound && forall latest | IsLatest(c, m, latest) :: vote.height > latest + 1)
            && (reply == Err(ConflictsWithFinalized) <==> Passes(c, m, vote, verified) && FinalizedOther(m, vote))
            && (reply == Err(EquivocationDetected) <==>
                  Passes(c, m, vote, verified) && vote.height !in m.finalized && Contradicts(m, vote))
  {
    HeightRefusedIff(c, m, vote, verified);
    RefusedIff(c, m, vote, verified, BelowHead);
    RefusedIff(c, m, vote, verified, NotNextHeight);
    ConflictRefusedIff(c, m, vote, verified);
  }

  /** The power behind the vote's block in its round, the vote included. */
  ghost function PowerBehind(c: Committee, m: Machine, vote: Vote): nat {
    Weight(c.powers, Supporting(c, m, vote))
  }

  ghost function Supporting(c: Committee, m: Machine, vote: Vote): set<string> {
    set id | id in c.powers &&
      (id == vote.validatorId || ((vote.height, vote.round, id) in m.votes &&
                                  Lower(m.votes[(vote.height, vote.round, id)].blockHash) == Lower(vote.blockHash)))
  }

  /** The vote is counted: it passes, its height is open, and its validator has not voted there yet. */
  ghost predicate Counted(c: Committee, m: Machine, vote: Vote, verified: bool) {
    && Passes(c, m, vote, verified) && vote.height !in m.finalized
    && (vote.height, vote.round, vote.validatorId) !in m.votes
  }

  lemma SupportingAreSigners(c: Committee, m: Machine, vote: Vote)
    requires vote.validatorId in c.powers && IdentityOf(vote) !in m.votes
    ensures PowerBehind(c, m, vote) ==
            Tally(c, m.votes[IdentityOf(vote) := vote], vote.height, vote.round, Lower(vote.blockHash))
  {
    var votes := m.votes[IdentityOf(vote) := vote];
    assert Supporting(c, m, vote) == Signers(c, votes, vote.height, vote.round, Lower(vote.blockHash));
  }

  lemma QuorumIff(c: Committee, power: nat)
    ensures power >= c.Quorum() <==> 3 * power > 2 * c.Total()
  {
  }

  lemma UncountedChangesNoVote(c: Committee, m: Machine, vote: Vote, verified: bool)
    requires !Counted(c, m, vote, verified)
    ensures var m' := AddVote(c, m, vote, verified).0;
            m'.votes == m.votes && m'.finalized == m.finalized
  {
    RefusalNoneIff(c, m, vote, verified);
  }

  lemma CountedIsRecorded(c: Committee, m: Machine, vote: Vote, verified: bool)
    requires Counted(c, m, vote, verified)
    ensures AddVote(c, m, vote, verified) == Record(c, m, vote)
  {
    RefusalNoneIff(c, m, vote, verified);
  }

  /** The height is finalized for the vote's block and round, with the power behind it. */
  ghost predicate FinalizedBy(c: Committee, m: Machine, m': Machine, vote: Vote) {
    && m'.finalized.Keys == m.finalized.Keys + {vote.height}
    && var cert := m'.finalized[vote.height];
    && cert.blockHash == Lower(vote.blockHash) && cert.round == vote.round && cert.height == vote.height
    && cert.chainId == c.chainId && cert.signedPower == PowerBehind(c, m, vote) && cert.totalPower == c.Total()
  }

  lemma RecordFinalizesIff(c: Committee, m: Machine, vote: Vote)
    requires vote.validatorId in c.powers && IdentityOf(vote) !in m.votes && vote.height !in m.finalized
    requires Record(c, m, vote).1 !in {Err(NotContiguous), Err(FinalizedDifferently)}
    ensures var m' := Record(c, m, vote).0;
            && m'.votes == m.votes[IdentityOf(vote) := vote]
            && if 3 * PowerBehind(c, m, vote) > 2 * c.Total() then FinalizedBy(c, m, m', vote)
               else m'.finalized == m.finalized
  {
    SupportingAreSigners(c, m, vote);
    QuorumIff(c, PowerBehind(c, m, vote));
  }

  /** A vote finalizes its height exactly when it is counted and more than two thirds of the power are
      now behind its block. A counted vote is recorded, and nothing else is recorded or finalized. */
  lemma FinalizesIff(c: Committee, m: Machine, vote: Vote, verified: bool)
    requires c.Valid() && Invariant(c, m)
    ensures var m' := AddVote(c, m, vote, verified).0;
            var counted := Counted(c, m, vote, verified);
            && m'.votes == (if counted then m.votes[(vote.height, vote.round, vote.validatorId) := vote] else m.votes)
            && if counted && 3 * PowerBehind(c, m, vote) > 2 * c.Total() then FinalizedBy(c, m, m', vote)
               else m'.finalized == m.finalized
  {
    if Counted(c, m, vote, verified) {
      LateGuardsNeverFire(c, m, vote, verified);
      CountedIsRecorded(c, m, vote, verified);
      RecordFinalizesIff(c, m, vote);
    } else {
      UncountedChangesNoVote(c, m, vote, verified);
    }
  }

  /** The two late guards by themselves: a certificate takes its place exactly when the height is free or
      holds the same certificate, and is the first height, the latest or the one above it. */
  lemma SettledIff(c: Committee, m: Machine, height: int, certificate: Certificate)
    requires c.Valid()
    ensures var ((m', reply), latest) := (Settle(c, m, height, certificate), LatestFinalized(c, m.finalized));
            var other := height in m.finalized && m.finalized[height].certificateHash != certificate.certificateHash;
            && (reply == Err(FinalizedDifferently) <==> other)
            && (reply == Err(NotContiguous) <==>
                  !other && ((latest == -1 && height != 0) ||
                             (latest >= 0 && height != latest && height - 1 != latest)))
            && (reply.Ok? ==> reply.value == Some(certificate) && m'.finalized == m.finalized[height := certificate])
            && (reply.Err? ==> m'.finalized == m.finalized)
            && m'.votes == m.votes && m'.equivocations == m.equivocations
  {
  }
}
