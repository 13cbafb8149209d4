/** The finality machine as a function from states to states, and what every
    run of it keeps. */
module Finality {
  import opened Prelude
  import opened Ordering
  import opened Votes
  import opened Weights

  datatype Validator = Validator(validatorId: string, votingPower: int)

  /** The fixed parameters of one machine: chain, voting powers and checkpoint. */
  datatype Committee = Committee(chainId: int, powers: map<string, nat>, checkpoint: int) {
    ghost predicate Valid() {
      && 0 < chainId
      && -1 <= checkpoint
      && 3 <= |powers|
      && forall id | id in powers :: 0 < powers[id]
    }

    ghost function Total(): nat {
      Weight(powers, powers.Keys)
    }

    ghost function Quorum(): nat {
      Total() * 2 / 3 + 1
    }
  }

  type Identity = (int, int, string)

  function IdentityOf(vote: Vote): Identity {
    (vote.height, vote.round, vote.validatorId)
  }

  datatype CertificateBody = CertificateBody(
    blockHash: string,
    chainId: int,
    height: int,
    round: int,
    signedPower: int,
    totalPower: int,
    validatorIds: seq<string>,
    voteHashes: seq<VoteHash>)

  datatype CertificateHash = CertificateHash(body: CertificateBody)

  datatype Certificate = Certificate(
    chainId: int,
    height: int,
    round: int,
    blockHash: string,
    signedPower: int,
    totalPower: int,
    validatorIds: seq<string>,
    voteHashes: seq<VoteHash>,
    certificateHash: CertificateHash)

  datatype FinalityError =
    | ChainMismatch
    | NegativeHeightOrRound
    | MalformedBlockHash
    | UnknownValidator
    | SignatureLength
    | SignatureRejected
    | BelowHead
    | NotNextHeight
    | ConflictsWithFinalized
    | EquivocationDetected
    | FinalizedDifferently
    | NotContiguous

  type Reply = Result<Option<Certificate>, FinalityError>

  datatype Machine = Machine(
    votes: map<Identity, Vote>,
    finalized: map<int, Certificate>,
    equivocations: set<Identity>)

  const FRESH := Machine(map[], map[], {})

  ghost function Greatest(s: set<int>): (r: int)
    requires s != {}
    ensures r in s && forall x | x in s :: x <= r
  {
    var x := Any(s);
    if s == {x} then x
    else
      var y := Greatest(s - {x});
      assert forall z | z in s :: z == x || z in s - {x};
      if x < y then y else x
  }

  ghost function LatestFinalized(c: Committee, finalized: map<int, Certificate>): int {
    if finalized.Keys == {} then c.checkpoint else Greatest(finalized.Keys)
  }

  /** The part of vote validation that does not look at the machine. */
  predicate Admissible(c: Committee, vote: Vote) {
    && vote.chainId == c.chainId
    && 0 <= vote.height && 0 <= vote.round
    && IsHash(vote.blockHash)
    && vote.validatorId in c.powers
    && 0 < |vote.signature| <= 4096
  }

  /** Why a vote is refused before it is looked up, in the order of the checks. */
  ghost function Refusal(c: Committee, m: Machine, vote: Vote, verified: bool): Option<FinalityError> {
    if vote.chainId != c.chainId then Some(ChainMismatch)
    else if vote.height < 0 || vote.round < 0 then Some(NegativeHeightOrRound)
    else if !IsHash(vote.blockHash) then Some(MalformedBlockHash)
    else if vote.validatorId !in c.powers then Some(UnknownValidator)
    else if !(0 < |vote.signature| <= 4096) then Some(SignatureLength)
    else if !verified then Some(SignatureRejected)
    else if vote.height < LatestFinalized(c, m.finalized) then Some(BelowHead)
    else if vote.height > LatestFinalized(c, m.finalized) + 1 then Some(NotNextHeight)
    else None
  }

  /** Who has a recorded vote for this block in this round. */
  ghost function Signers(c: Committee, votes: map<Identity, Vote>, height: int, round: int, block: string)
    : set<string>
  {
    set id | id in c.powers && (height, round, id) in votes && Lower(votes[(height, round, id)].blockHash) == block
  }

  ghost function Tally(c: Committee, votes: map<Identity, Vote>, height: int, round: int, block: string): nat {
    Weight(c.powers, Signers(c, votes, height, round, block))
  }

  ghost function VoteHashes(votes: map<Identity, Vote>, height: int, round: int, ids: seq<string>): seq<VoteHash>
    requires forall i | 0 <= i < |ids| :: (height, round, ids[i]) in votes
  {
    seq(|ids|, i requires 0 <= i < |ids| => votes[(height, round, ids[i])].Hash())
  }

  /** The certificate over everyone recorded for the block in the round. */
  ghost function Certify(c: Committee, votes: map<Identity, Vote>, height: int, round: int, block: string)
    : Certificate
  {
    var ids := SortNames(Signers(c, votes, height, round, block));
    SortNamesLists(Signers(c, votes, height, round, block));
    var hashes := VoteHashes(votes, height, round, ids);
    var power := Tally(c, votes, height, round, block);
    Certificate(c.chainId, height, round, block, power, c.Total(), ids, hashes,
                CertificateHash(CertificateBody(block, c.chainId, height, round, power, c.Total(), ids, hashes)))
  }

  /** A certificate takes its place unless another one has it, or it would leave a gap. */
  ghost function Settle(c: Committee, m: Machine, height: int, certificate: Certificate): (Machine, Reply) {
    var latest := LatestFinalized(c, m.finalized);
    if height in m.finalized && m.finalized[height].certificateHash != certificate.certificateHash then
      (m, Err(FinalizedDifferently))
    else if (latest == -1 && height != 0) || (latest >= 0 && height != latest + 1 && height != latest) then
      (m, Err(NotContiguous))
    else (m.(finalized := m.finalized[height := certificate]), Ok(Some(certificate)))
  }

  /** A vote of a validator not yet heard at this height and round is recorded, and
      finalizes the height when its block now has a quorum. */
  ghost function Record(c: Committee, m: Machine, vote: Vote): (Machine, Reply) {
    var votes := m.votes[IdentityOf(vote) := vote];
    var block := Lower(vote.blockHash);
    if Tally(c, votes, vote.height, vote.round, block) < c.Quorum() then
      (m.(votes := votes), Ok(None))
    else Settle(c, m.(votes := votes), vote.height, Certify(c, votes, vote.height, vote.round, block))
  }

  /** What the machine does with a vote that passed validation. */
  ghost function Count(c: Committee, m: Machine, vote: Vote): (Machine, Reply) {
    if vote.height in m.finalized then
      var certificate := m.finalized[vote.height];
      (m, if certificate.blockHash == Lower(vote.blockHash) then Ok(Some(certificate)) else Err(ConflictsWithFinalized))
    else if IdentityOf(vote) in m.votes then
      if Lower(m.votes[IdentityOf(vote)].blockHash) == Lower(vote.blockHash) then (m, Ok(None))
      else (m.(equivocations := m.equivocations + {IdentityOf(vote)}), Err(EquivocationDetected))
    else Record(c, m, vote)
  }

  /** One vote, offered to the machine with the verdict of the signature verifier. */
  ghost function AddVote(c: Committee, m: Machine, vote: Vote, verified: bool): (Machine, Reply) {
    var refusal := Refusal(c, m, vote, verified);
    if refusal.Some? then (m, Err(refusal.value)) else Count(c, m, vote)
  }

  // ---------------------------------------------------------------- invariant

  /** Finalized heights run without a gap from the checkpoint, or from one above it. */
  ghost predicate GapFree(c: Committee, finalized: map<int, Certificate>) {
    && (forall h | h in finalized :: 0 <= h && c.checkpoint <= h)
    && (forall h, k | h in finalized && c.checkpoint < k <= h :: k in finalized)
  }

  /** A certificate is exactly what the recorded votes of distinct validators carry. */
  ghost predicate Certified(c: Committee, votes: map<Identity, Vote>, height: int, cert: Certificate) {
    && cert == Certify(c, votes, height, cert.round, cert.blockHash)
    && c.Quorum() <= cert.signedPower
  }

  ghost predicate AllCertified(c: Committee, votes: map<Identity, Vote>, finalized: map<int, Certificate>) {
    forall h | h in finalized :: Certified(c, votes, h, finalized[h])
  }

  ghost predicate Recorded(c: Committee, votes: map<Identity, Vote>) {
    forall k | k in votes :: Admissible(c, votes[k]) && k == IdentityOf(votes[k])
  }

  ghost predicate BelowQuorum(c: Committee, m: Machine) {
    forall h, r, b :: h !in m.finalized ==> Tally(c, m.votes, h, r, b) < c.Quorum()
  }

  ghost predicate Invariant(c: Committee, m: Machine) {
    && Recorded(c, m.votes)
    && m.equivocations <= m.votes.Keys
    && GapFree(c, m.finalized)
    && AllCertified(c, m.votes, m.finalized)
    && BelowQuorum(c, m)
  }

  lemma FreshInvariant(c: Committee)
    requires c.Valid()
    ensures Invariant(c, FRESH)
  {
    forall h, r, b
      ensures Tally(c, FRESH.votes, h, r, b) < c.Quorum()
    {
      assert Signers(c, FRESH.votes, h, r, b) == {};
    }
  }

  /** Recording a vote touches only the tally of its own height, round and block. */
  lemma OtherTalliesKept(c: Committee, votes: map<Identity, Vote>, vote: Vote, h: int, r: int, b: string)
    requires IdentityOf(vote) !in votes
    requires (h, r, b) != (vote.height, vote.round, Lower(vote.blockHash))
    ensures Signers(c, votes[IdentityOf(vote) := vote], h, r, b) == Signers(c, votes, h, r, b)
  {
  }

  lemma CertificatesKept(c: Committee, votes: map<Identity, Vote>, vote: Vote, h: int, cert: Certificate)
    requires Certified(c, votes, h, cert)
    requires IdentityOf(vote) !in votes
    requires h != vote.height
    ensures Certified(c, votes[IdentityOf(vote) := vote], h, cert)
  {
    var votes' := votes[IdentityOf(vote) := vote];
    OtherTalliesKept(c, votes, vote, h, cert.round, cert.blockHash);
    var ids := SortNames(Signers(c, votes, h, cert.round, cert.blockHash));
    SortNamesLists(Signers(c, votes, h, cert.round, cert.blockHash));
    assert VoteHashes(votes', h, cert.round, ids) == VoteHashes(votes, h, cert.round, ids);
  }

  lemma AddVoteKeepsGapFree(c: Committee, m: Machine, vote: Vote, verified: bool)
    requires GapFree(c, m.finalized)
    ensures GapFree(c, AddVote(c, m, vote, verified).0.finalized)
  {
  }

  lemma EarlierStayCertified(c: Committee, votes: map<Identity, Vote>, vote: Vote, finalized: map<int, Certificate>)
    requires AllCertified(c, votes, finalized)
    requires IdentityOf(vote) !in votes && vote.height !in finalized
    ensures AllCertified(c, votes[IdentityOf(vote) := vote], finalized)
  {
    forall h | h in finalized
      ensures Certified(c, votes[IdentityOf(vote) := vote], h, finalized[h])
    {
      CertificatesKept(c, votes, vote, h, finalized[h]);
    }
  }

  lemma QuorumIsCertified(c: Committee, votes: map<Identity, Vote>, finalized: map<int, Certificate>, h: int, r: int,
                          b: string)
    requires AllCertified(c, votes, finalized) && c.Quorum() <= Tally(c, votes, h, r, b)
    ensures AllCertified(c, votes, finalized[h := Certify(c, votes, h, r, b)])
  {
    assert Certified(c, votes, h, Certify(c, votes, h, r, b));
  }

  lemma RecordKeepsCertified(c: Committee, m: Machine, vote: Vote)
    requires AllCertified(c, m.votes, m.finalized)
    requires vote.height !in m.finalized && IdentityOf(vote) !in m.votes
    ensures AllCertified(c, Record(c, m, vote).0.votes, Record(c, m, vote).0.finalized)
  {
    var (votes, block) := (m.votes[IdentityOf(vote) := vote], Lower(vote.blockHash));
    EarlierStayCertified(c, m.votes, vote, m.finalized);
    if c.Quorum() <= Tally(c, votes, vote.height, vote.round, block) {
      QuorumIsCertified(c, votes, m.finalized, vote.height, vote.round, block);
    }
  }

  lemma AddVoteKeepsCertified(c: Committee, m: Machine, vote: Vote, verified: bool)
    requires AllCertified(c, m.votes, m.finalized)
    ensures var m' := AddVote(c, m, vote, verified).0;
            AllCertified(c, m'.votes, m'.finalized)
  {
    if vote.height !in m.finalized && IdentityOf(vote) !in m.votes { RecordKeepsCertified(c, m, vote); }
  }

  lemma AddVoteKeepsBelowQuorum(c: Committee, m: Machine, vote: Vote, verified: bool)
    requires GapFree(c, m.finalized) && BelowQuorum(c, m)
    ensures BelowQuorum(c, AddVote(c, m, vote, verified).0)
  {
    var m' := AddVote(c, m, vote, verified).0;
    LateGuardsNeverFire(c, m, vote, verified);
    if m'.votes != m.votes {
      forall h, r, b | h !in m'.finalized
        ensures Tally(c, m'.votes, h, r, b) < c.Quorum()
      {
        if (h, r, b) != (vote.height, vote.round, Lower(vote.blockHash)) {
          OtherTalliesKept(c, m.votes, vote, h, r, b);
          assert Tally(c, m.votes, h, r, b) < c.Quorum();
        }
      }
    }
  }

  lemma AddVoteKeepsRecorded(c: Committee, m: Machine, vote: Vote, verified: bool)
    requires Recorded(c, m.votes)
    ensures Recorded(c, AddVote(c, m, vote, verified).0.votes)
  {
  }

  lemma AddVoteKeepsEquivocations(c: Committee, m: Machine, vote: Vote, verified: bool)
    requires m.equivocations <= m.votes.Keys
    ensures var m' := AddVote(c, m, vote, verified).0;
            m'.equivocations <= m'.votes.Keys
  {
  }

  lemma AddVoteKeepsInvariant(c: Committee, m: Machine, vote: Vote, verified: bool)
    requires Invariant(c, m)
    ensures Invariant(c, AddVote(c, m, vote, verified).0)
  {
    AddVoteKeepsRecorded(c, m, vote, verified);
    AddVoteKeepsEquivocations(c, m, vote, verified);
    AddVoteKeepsGapFree(c, m, vote, verified);
    AddVoteKeepsCertified(c, m, vote, verified);
    AddVoteKeepsBelowQuorum(c, m, vote, verified);
  }

  /** The two guards behind the quorum test refuse nothing that validation let through. */
  lemma LateGuardsNeverFire(c: Committee, m: Machine, vote: Vote, verified: bool)
    requires GapFree(c, m.finalized)
    ensures AddVote(c, m, vote, verified).1 != Err(NotContiguous)
    ensures AddVote(c, m, vote, verified).1 != Err(FinalizedDifferently)
  {
    if m.finalized.Keys != {} {
      assert LatestFinalized(c, m.finalized) in m.finalized;
    }
  }

  /** A certificate carries more than two thirds of the total power. */
  lemma CertificateExceedsTwoThirds(c: Committee, m: Machine, h: int)
    requires c.Valid() && Invariant(c, m) && h in m.finalized
    ensures var cert := m.finalized[h];
            && 3 * cert.signedPower > 2 * cert.totalPower
            && (set id | id in cert.validatorIds) <= c.powers.Keys
            && Ascending(LexLess, cert.validatorIds)
            && cert.signedPower == Weight(c.powers, set id | id in cert.validatorIds)
            && cert.totalPower == Weight(c.powers, c.powers.Keys)
            && |cert.voteHashes| == |cert.validatorIds|
            && forall i | 0 <= i < |cert.validatorIds| ::
                 && (h, cert.round, cert.validatorIds[i]) in m.votes
                 && Lower(m.votes[(h, cert.round, cert.validatorIds[i])].blockHash) == cert.blockHash
                 && cert.voteHashes[i] == m.votes[(h, cert.round, cert.validatorIds[i])].Hash()
  {
    var cert := m.finalized[h];
    assert Certified(c, m.votes, h, cert);
    var signers := Signers(c, m.votes, h, cert.round, cert.blockHash);
    SortNamesLists(signers);
    assert (set id | id in cert.validatorIds) == signers;
    forall i | 0 <= i < |cert.validatorIds|
      ensures cert.validatorIds[i] in signers
    {
      assert cert.validatorIds[i] in cert.validatorIds;
    }
  }

  // --------------------------------------------------------------------- runs

  datatype Delivery = Delivery(vote: Vote, verified: bool)

  ghost function Deliver(c: Committee, m: Machine, d: Delivery): Machine {
    AddVote(c, m, d.vote, d.verified).0
  }

  ghost function Run(c: Committee, m: Machine, ds: seq<Delivery>): Machine {
    if ds == [] then m else Deliver(c, Run(c, m, ds[..|ds| - 1]), ds[|ds| - 1])
  }

  /** Every reachable machine satisfies the invariant, whatever is delivered to it. */
  lemma {:induction false} RunInvariant(c: Committee, m: Machine, ds: seq<Delivery>)
    requires Invariant(c, m)
    ensures Invariant(c, Run(c, m, ds))
  {
    if ds != [] {
      var last := |ds| - 1;
      RunInvariant(c, m, ds[..last]);
      AddVoteKeepsInvariant(c, Run(c, m, ds[..last]), ds[last].vote, ds[last].verified);
    }
  }

  /** The later machine has forgotten and changed nothing. */
  ghost predicate Extends(early: Machine, late: Machine) {
    && (forall h | h in early.finalized :: h in late.finalized && late.finalized[h] == early.finalized[h])
    && (forall k | k in early.votes :: k in late.votes && late.votes[k] == early.votes[k])
    && early.equivocations <= late.equivocations
  }

  lemma AddVoteExtends(c: Committee, m: Machine, vote: Vote, verified: bool)
    ensures Extends(m, AddVote(c, m, vote, verified).0)
  {
  }

  /** What is finalized stays finalized by the same certificate, and recorded votes
      and detected equivocations are never forgotten. */
  lemma {:induction false} RunIsMonotone(c: Committee, m: Machine, ds: seq<Delivery>, n: nat)
    requires n <= |ds|
    ensures Extends(Run(c, m, ds[..n]), Run(c, m, ds))
    decreases |ds|
  {
    if n == |ds| {
      assert ds[..n] == ds;
    } else {
      var (before, last) := (ds[..|ds| - 1], ds[|ds| - 1]);
      assert before[..n] == ds[..n];
      RunIsMonotone(c, m, before, n);
      AddVoteExtends(c, Run(c, m, before), last.vote, last.verified);
    }
  }

  ghost predicate IsInterval(heights: set<int>, first: int, last: int) {
    0 <= first <= last && forall k :: k in heights <==> first <= k <= last
  }

  /** The finalized heights are all heights from the checkpoint, or from one above it,
      up to the latest. */
  lemma FinalizedHeightsAreAnInterval(c: Committee, finalized: map<int, Certificate>)
    requires c.Valid() && GapFree(c, finalized) && finalized.Keys != {}
    ensures var latest := LatestFinalized(c, finalized);
            || IsInterval(finalized.Keys, c.checkpoint, latest)
            || IsInterval(finalized.Keys, c.checkpoint + 1, latest)
  {
    assert LatestFinalized(c, finalized) in finalized;
  }

  /** The machine reports an equivocation exactly for a valid vote that meets a recorded
      vote of the same validator, height and round for another block. */
  lemma EquivocationReported(c: Committee, m: Machine, vote: Vote, verified: bool)
    requires GapFree(c, m.finalized)
    ensures var (m', reply) := AddVote(c, m, vote, verified);
            && (reply == Err(EquivocationDetected) <==>
                  && Refusal(c, m, vote, verified).None?
                  && vote.height !in m.finalized
                  && IdentityOf(vote) in m.votes
                  && Lower(m.votes[IdentityOf(vote)].blockHash) != Lower(vote.blockHash))
            && m'.equivocations == m.equivocations +
               (if reply == Err(EquivocationDetected) then {IdentityOf(vote)} else {})
  {
    LateGuardsNeverFire(c, m, vote, verified);
  }

  /** A valid vote that meets, at a height not yet finalized, a recorded vote of its validator
      for another block. */
  ghost predicate Equivocates(c: Committee, m: Machine, d: Delivery, id: Identity) {
    && IdentityOf(d.vote) == id
    && Refusal(c, m, d.vote, d.verified).None?
    && d.vote.height !in m.finalized
    && id in m.votes && Lower(m.votes[id].blockHash) != Lower(d.vote.blockHash)
  }

  lemma AddVoteEquivocation(c: Committee, m: Machine, d: Delivery, id: Identity)
    requires c.Valid() && Invariant(c, m)
    ensures id in AddVote(c, m, d.vote, d.verified).0.equivocations <==>
            id in m.equivocations || Equivocates(c, m, d, id)
  {
    EquivocationReported(c, m, d.vote, d.verified);
  }

  ghost predicate EquivocatesAt(c: Committee, ds: seq<Delivery>, n: nat, id: Identity)
    requires n < |ds|
  {
    Equivocates(c, Run(c, FRESH, ds[..n]), ds[n], id)
  }

  lemma SameInPrefix(c: Committee, ds: seq<Delivery>, before: seq<Delivery>, n: nat, id: Identity)
    requires before <= ds && n < |before|
    ensures EquivocatesAt(c, ds, n, id) <==> EquivocatesAt(c, before, n, id)
  {
    assert ds[..n] == before[..n];
  }

  lemma LastEquivocation(c: Committee, ds: seq<Delivery>, id: Identity)
    requires c.Valid() && ds != []
    ensures var before := ds[..|ds| - 1];
            id in Run(c, FRESH, ds).equivocations <==>
            id in Run(c, FRESH, before).equivocations || EquivocatesAt(c, ds, |ds| - 1, id)
  {
    var before := ds[..|ds| - 1];
    FreshInvariant(c);
    RunInvariant(c, FRESH, before);
    AddVoteEquivocation(c, Run(c, FRESH, before), ds[|ds| - 1], id);
  }

  /** Over any run: an identity counts as equivocating exactly when some delivery was a valid
      vote for another block than its recorded one, while the height was still open. */
  lemma {:induction false} EquivocationsIff(c: Committee, ds: seq<Delivery>, id: Identity)
    requires c.Valid()
    ensures id in Run(c, FRESH, ds).equivocations <==> exists n :: 0 <= n < |ds| && EquivocatesAt(c, ds, n, id)
  {
    if ds != [] {
      var before := ds[..|ds| - 1];
      LastEquivocation(c, ds, id);
      EquivocationsIff(c, before, id);
      forall n | 0 <= n < |before|
        ensures EquivocatesAt(c, ds, n, id) <==> EquivocatesAt(c, before, n, id)
      {
        SameInPrefix(c, ds, before, n, id);
      }
    }
  }

  /** A certificate lists its signers in the one ascending order there is. */
  lemma CertificateListsItsSigners(c: Committee, votes: map<Identity, Vote>, h: int, cert: Certificate,
                                   ids: seq<string>)
    requires Certified(c, votes, h, cert)
    ensures ids == cert.validatorIds <==>
            Ascending(LexLess, ids) && Lists(ids, Signers(c, votes, h, cert.round, cert.blockHash))
  {
    var signers := Signers(c, votes, h, cert.round, cert.blockHash);
    SortNamesLists(signers);
    if Ascending(LexLess, ids) && Lists(ids, signers) { SortNamesUnique(signers, ids); }
  }

  // ------------------------------------------------------- order of delivery

  /** The votes of a delivery, by validator. */
  ghost function Ballots(ds: seq<Delivery>): map<string, Vote> {
    if ds == [] then map[]
    else
      var d := ds[|ds| - 1];
      Ballots(ds[..|ds| - 1])[d.vote.validatorId := d.vote]
  }

  ghost function Supporters(c: Committee, ballots: map<string, Vote>, block: string): set<string> {
    set id | id in c.powers && id in ballots && Lower(ballots[id].blockHash) == block
  }

  ghost function Support(c: Committee, ballots: map<string, Vote>, block: string): nat {
    Weight(c.powers, Supporters(c, ballots, block))
  }

  /** Verified, admissible votes of one height and round, one for each validator named. */
  ghost predicate OneRound(c: Committee, height: int, round: int, ds: seq<Delivery>) {
    && (forall i | 0 <= i < |ds| ::
          && ds[i].verified && Admissible(c, ds[i].vote)
          && ds[i].vote.height == height && ds[i].vote.round == round)
    && (forall i, j | 0 <= i < j < |ds| :: ds[i].vote.validatorId != ds[j].vote.validatorId)
  }

  /** The machine is waiting for this height and has seen nothing of this round. */
  ghost predicate Awaiting(c: Committee, m: Machine, height: int, round: int) {
    && height !in m.finalized
    && LatestFinalized(c, m.finalized) <= height <= LatestFinalized(c, m.finalized) + 1
    && forall id :: (height, round, id) !in m.votes
  }

  /** Only these ballots are recorded for the round. */
  ghost predicate RecordsOnly(votes: map<Identity, Vote>, height: int, round: int, ballots: map<string, Vote>) {
    forall id | (height, round, id) in votes :: id in ballots && votes[(height, round, id)] == ballots[id]
  }

  ghost predicate RecordsAll(votes: map<Identity, Vote>, height: int, round: int, ballots: map<string, Vote>) {
    forall id | id in ballots :: (height, round, id) in votes
  }

  ghost predicate Undecided(m: Machine, m': Machine, height: int, round: int, ballots: map<string, Vote>) {
    && m'.finalized == m.finalized
    && RecordsOnly(m'.votes, height, round, ballots)
    && RecordsAll(m'.votes, height, round, ballots)
  }

  ghost predicate Decided(c: Committee, m': Machine, height: int, round: int, ballots: map<string, Vote>) {
    && height in m'.finalized
    && m'.finalized[height].round == round
    && Support(c, ballots, m'.finalized[height].blockHash) >= c.Quorum()
    && RecordsOnly(m'.votes, height, round, ballots)
  }

  lemma SignersAreSupporters(c: Committee, votes: map<Identity, Vote>, height: int, round: int,
                             ballots: map<string, Vote>, block: string)
    requires RecordsOnly(votes, height, round, ballots) && RecordsAll(votes, height, round, ballots)
    ensures Signers(c, votes, height, round, block) == Supporters(c, ballots, block)
  {
  }

  lemma {:induction false} BallotsContain(ds: seq<Delivery>, id: string)
    ensures id in Ballots(ds) <==> exists i :: 0 <= i < |ds| && ds[i].vote.validatorId == id
  {
    if ds != [] {
      BallotsContain(ds[..|ds| - 1], id);
    }
  }

  lemma {:induction false} BallotsLookup(c: Committee, height: int, round: int, ds: seq<Delivery>, i: nat)
    requires OneRound(c, height, round, ds) && i < |ds|
    ensures ds[i].vote.validatorId in Ballots(ds) && Ballots(ds)[ds[i].vote.validatorId] == ds[i].vote
  {
    if i < |ds| - 1 {
      BallotsLookup(c, height, round, ds[..|ds| - 1], i);
    }
  }

  lemma RecordsGrow(votes: map<Identity, Vote>, ballots: map<string, Vote>, vote: Vote)
    requires RecordsOnly(votes, vote.height, vote.round, ballots) && RecordsAll(votes, vote.height, vote.round, ballots)
    ensures var (votes', ballots') := (votes[IdentityOf(vote) := vote], ballots[vote.validatorId := vote]);
            && RecordsOnly(votes', vote.height, vote.round, ballots')
            && RecordsAll(votes', vote.height, vote.round, ballots')
  {
  }

  lemma UndecidedStep(c: Committee, m: Machine, m0: Machine, ballots: map<string, Vote>, vote: Vote)
    requires GapFree(c, m.finalized) && Awaiting(c, m, vote.height, vote.round)
    requires Admissible(c, vote) && vote.validatorId !in ballots
    requires Undecided(m, m0, vote.height, vote.round, ballots)
    ensures var (m1, more) := (AddVote(c, m0, vote, true).0, ballots[vote.validatorId := vote]);
            || Undecided(m, m1, vote.height, vote.round, more)
            || Decided(c, m1, vote.height, vote.round, more)
  {
    var (m1, more) := (AddVote(c, m0, vote, true).0, ballots[vote.validatorId := vote]);
    assert m1 == Record(c, m0, vote).0;
    RecordsGrow(m0.votes, ballots, vote);
    SignersAreSupporters(c, m1.votes, vote.height, vote.round, more, Lower(vote.blockHash));
    LateGuardsNeverFire(c, m0, vote, true);
  }

  lemma DecidedStep(c: Committee, m0: Machine, ballots: map<string, Vote>, vote: Vote)
    requires Admissible(c, vote) && vote.validatorId !in ballots
    requires Decided(c, m0, vote.height, vote.round, ballots)
    ensures Decided(c, AddVote(c, m0, vote, true).0, vote.height, vote.round, ballots[vote.validatorId := vote])
  {
    var more := ballots[vote.validatorId := vote];
    var block := m0.finalized[vote.height].blockHash;
    WeightMonotone(c.powers, Supporters(c, ballots, block), Supporters(c, more, block));
  }

  lemma {:induction false} OneRoundOutcome(c: Committee, m: Machine, height: int, round: int, ds: seq<Delivery>)
    requires GapFree(c, m.finalized)
    requires Awaiting(c, m, height, round) && OneRound(c, height, round, ds)
    ensures var m' := Run(c, m, ds);
            Undecided(m, m', height, round, Ballots(ds)) || Decided(c, m', height, round, Ballots(ds))
  {
    if ds != [] {
      var (before, vote) := (ds[..|ds| - 1], ds[|ds| - 1].vote);
      OneRoundOutcome(c, m, height, round, before);
      BallotsContain(before, vote.validatorId);
      if Decided(c, Run(c, m, before), height, round, Ballots(before)) {
        DecidedStep(c, Run(c, m, before), Ballots(before), vote);
      } else {
        UndecidedStep(c, m, Run(c, m, before), Ballots(before), vote);
      }
    }
  }

  /** However the votes of one round are ordered, the height is finalized exactly when some
      block is supported by a quorum, and then for such a block. */
  lemma FinalizedIffQuorum(c: Committee, m: Machine, height: int, round: int, ds: seq<Delivery>)
    requires c.Valid() && Invariant(c, m)
    requires Awaiting(c, m, height, round) && OneRound(c, height, round, ds)
    ensures var m' := Run(c, m, ds);
            && (height in m'.finalized <==> exists block :: Support(c, Ballots(ds), block) >= c.Quorum())
            && (height in m'.finalized ==> Decided(c, m', height, round, Ballots(ds)))
  {
    OneRoundOutcome(c, m, height, round, ds);
    RunInvariant(c, m, ds);
    var m' := Run(c, m, ds);
    if height !in m'.finalized {
      forall block
        ensures Support(c, Ballots(ds), block) < c.Quorum()
      {
        SignersAreSupporters(c, m'.votes, height, round, Ballots(ds), block);
        assert Tally(c, m'.votes, height, round, block) < c.Quorum();
      }
    }
  }

  /** Any two quorums share more power than a third of the total. */
  lemma QuorumsIntersect(c: Committee, a: set<string>, b: set<string>)
    requires a <= c.powers.Keys && b <= c.powers.Keys
    requires Weight(c.powers, a) >= c.Quorum() && Weight(c.powers, b) >= c.Quorum()
    ensures 3 * Weight(c.powers, a * b) > c.Total()
  {
    WeightUnion(c.powers, a, b);
    WeightMonotone(c.powers, a + b, c.powers.Keys);
  }

  /** One vote per validator cannot give two blocks a quorum. */
  lemma QuorumBlockUnique(c: Committee, ballots: map<string, Vote>, block: string, block': string)
    requires Support(c, ballots, block) >= c.Quorum() && Support(c, ballots, block') >= c.Quorum()
    ensures block == block'
  {
    var (a, b) := (Supporters(c, ballots, block), Supporters(c, ballots, block'));
    QuorumsIntersect(c, a, b);
    if a * b != {} {
      var id :| id in a * b;
    }
  }

  ghost predicate SameVotes(ds: seq<Delivery>, ds': seq<Delivery>) {
    forall d :: d in ds <==> d in ds'
  }

  lemma SameBallots(c: Committee, height: int, round: int, ds: seq<Delivery>, ds': seq<Delivery>)
    requires OneRound(c, height, round, ds) && OneRound(c, height, round, ds') && SameVotes(ds, ds')
    ensures Ballots(ds) == Ballots(ds')
  {
    forall id
      ensures id in Ballots(ds) <==> id in Ballots(ds')
      ensures id in Ballots(ds) && id in Ballots(ds') ==> Ballots(ds)[id] == Ballots(ds')[id]
    {
      BallotsContain(ds, id);
      BallotsContain(ds', id);
      if id in Ballots(ds) {
        var i :| 0 <= i < |ds| && ds[i].vote.validatorId == id;
        assert ds[i] in ds';
        var j :| 0 <= j < |ds'| && ds'[j] == ds[i];
        BallotsLookup(c, height, round, ds, i);
        BallotsLookup(c, height, round, ds', j);
      }
      if id in Ballots(ds') {
        var j :| 0 <= j < |ds'| && ds'[j].vote.validatorId == id;
        assert ds'[j] in ds;
        var i :| 0 <= i < |ds| && ds[i] == ds'[j];
        assert ds[i].vote.validatorId == id;
      }
    }
  }

  /** Two orders of the same votes finalize the same block or none. */
  lemma DeliveryOrderIrrelevant(c: Committee, m: Machine, height: int, round: int,
                                ds: seq<Delivery>, ds': seq<Delivery>)
    requires c.Valid() && Invariant(c, m) && Awaiting(c, m, height, round)
    requires OneRound(c, height, round, ds) && OneRound(c, height, round, ds') && SameVotes(ds, ds')
    ensures var (one, other) := (Run(c, m, ds), Run(c, m, ds'));
            && (height in one.finalized <==> height in other.finalized)
            && (height in one.finalized ==> one.finalized[height].blockHash == other.finalized[height].blockHash)
  {
    SameBallots(c, height, round, ds, ds');
    FinalizedIffQuorum(c, m, height, round, ds);
    FinalizedIffQuorum(c, m, height, round, ds');
    var (one, other) := (Run(c, m, ds), Run(c, m, ds'));
    if height in one.finalized {
      QuorumBlockUnique(c, Ballots(ds), one.finalized[height].blockHash, other.finalized[height].blockHash);
    }
  }

  ghost function BallotBox(height: int, round: int, ballots: map<string, Vote>): map<Identity, Vote> {
    map k: Identity | k in (set id | id in ballots :: (height, round, id)) :: ballots[k.2]
  }

  /** A certificate depends only on what is recorded for its round. */
  lemma CertifyDependsOnRound(c: Committee, votes: map<Identity, Vote>, votes': map<Identity, Vote>,
                              height: int, round: int, block: string)
    requires forall id | id in c.powers ::
               && ((height, round, id) in votes <==> (height, round, id) in votes')
               && ((height, round, id) in votes ==> votes[(height, round, id)] == votes'[(height, round, id)])
    ensures Certify(c, votes, height, round, block) == Certify(c, votes', height, round, block)
  {
    var signers := Signers(c, votes, height, round, block);
    assert signers == Signers(c, votes', height, round, block);
    SortNamesLists(signers);
    var ids := SortNames(signers);
    assert VoteHashes(votes, height, round, ids) == VoteHashes(votes', height, round, ids);
  }

  lemma FullHouse<T>(a: set<T>, b: set<T>)
    requires a <= b && |a| >= |b|
    ensures a == b
  {
    assert |b - a| == |b| - |a|;
  }

  /** Three validators of unit power: every order of their three votes for one block
      finalizes it, and by the same certificate. */
  lemma ThreeVotesGiveOneCertificate(c: Committee, m: Machine, height: int, round: int, block: string,
                                     ds: seq<Delivery>)
    requires c.Valid() && Invariant(c, m) && Awaiting(c, m, height, round) && OneRound(c, height, round, ds)
    requires |c.powers| == 3 && forall id | id in c.powers :: c.powers[id] == 1
    requires Ballots(ds).Keys == c.powers.Keys
    requires forall id | id in Ballots(ds) :: Lower(Ballots(ds)[id].blockHash) == block
    ensures var m' := Run(c, m, ds);
            && height in m'.finalized
            && m'.finalized[height] == Certify(c, BallotBox(height, round, Ballots(ds)), height, round, block)
            && Signers(c, BallotBox(height, round, Ballots(ds)), height, round, block) == c.powers.Keys
            && c.Total() == 3
  {
    var m' := Run(c, m, ds);
    WeightOfOnes(c.powers, c.powers.Keys);
    assert Supporters(c, Ballots(ds), block) == c.powers.Keys;
    FinalizedIffQuorum(c, m, height, round, ds);
    assert Support(c, Ballots(ds), block) >= c.Quorum();
    QuorumBlockUnique(c, Ballots(ds), m'.finalized[height].blockHash, block);
    AllSignersCertify(c, m, height, round, block, ds);
  }

  /** Among three validators of power one only all three are a quorum. */
  lemma ThreeIsTheQuorum(c: Committee, signers: set<string>)
    requires |c.powers| == 3 && forall id | id in c.powers :: c.powers[id] == 1
    requires signers <= c.powers.Keys && c.Quorum() <= Weight(c.powers, signers)
    ensures signers == c.powers.Keys
  {
    WeightOfOnes(c.powers, signers);
    WeightOfOnes(c.powers, c.powers.Keys);
    FullHouse(signers, c.powers.Keys);
  }

  lemma CertifiedByAll(c: Committee, votes: map<Identity, Vote>, height: int, cert: Certificate)
    requires |c.powers| == 3 && forall id | id in c.powers :: c.powers[id] == 1
    requires Certified(c, votes, height, cert)
    ensures Signers(c, votes, height, cert.round, cert.blockHash) == c.powers.Keys
  {
    ThreeIsTheQuorum(c, Signers(c, votes, height, cert.round, cert.blockHash));
  }

  lemma BoxCertifies(c: Committee, votes: map<Identity, Vote>, height: int, round: int, ballots: map<string, Vote>,
                     block: string)
    requires RecordsOnly(votes, height, round, ballots)
    requires Signers(c, votes, height, round, block) == c.powers.Keys
    ensures var box := BallotBox(height, round, ballots);
            && Certify(c, votes, height, round, block) == Certify(c, box, height, round, block)
            && Signers(c, box, height, round, block) == c.powers.Keys
  {
    var box := BallotBox(height, round, ballots);
    forall id | id in c.powers
      ensures (height, round, id) in votes && (height, round, id) in box
      ensures votes[(height, round, id)] == box[(height, round, id)]
    {
      assert id in Signers(c, votes, height, round, block);
    }
    CertifyDependsOnRound(c, votes, box, height, round, block);
  }

  lemma AllSignersCertify(c: Committee, m: Machine, height: int, round: int, block: string, ds: seq<Delivery>)
    requires Invariant(c, m)
    requires |c.powers| == 3 && forall id | id in c.powers :: c.powers[id] == 1
    requires Decided(c, Run(c, m, ds), height, round, Ballots(ds))
    requires Run(c, m, ds).finalized[height].blockHash == block
    ensures var box := BallotBox(height, round, Ballots(ds));
            && Run(c, m, ds).finalized[height] == Certify(c, box, height, round, block)
            && Signers(c, box, height, round, block) == c.powers.Keys
  {
    var m' := Run(c, m, ds);
    RunInvariant(c, m, ds);
    assert Certified(c, m'.votes, height, m'.finalized[height]);
    CertifiedByAll(c, m'.votes, height, m'.finalized[height]);
    BoxCertifies(c, m'.votes, height, round, Ballots(ds), block);
  }
}
