/** Replicas, journalled validators and Byzantine validators together: what quorum
    intersection gives once honest votes leave only through a signing journal. */
module Agreement {
  import opened Finality
  import opened Prelude
  import opened Votes
  import opened Weights
  import Journal = SigningJournal

  /** A replica: its machine, and the finalized height it was started from. */
  datatype Replica = Replica(checkpoint: int, machine: Machine)

  /** One journal per honest validator, and any number of replicas. Every other
      validator is Byzantine and may sign anything. */
  datatype System = System(journals: map<string, Journal.World>, replicas: map<int, Replica>)

  /** A journal call, a vote delivered to a replica, or a replica that starts again, empty, from
      some checkpoint. */
  datatype Step =
    | JournalStep(validatorId: string, event: Journal.Event)
    | DeliverStep(replica: int, vote: Vote, claimed: bool)
    | RestartStep(replica: int, checkpoint: int)

  /** The committee as a replica with this checkpoint sees it. */
  ghost function From(c: Committee, checkpoint: int): Committee {
    c.(checkpoint := checkpoint)
  }

  ghost function Honest(s: System): set<string> {
    s.journals.Keys
  }

  ghost function Byzantine(c: Committee, s: System): set<string> {
    c.powers.Keys - Honest(s)
  }

  /** The journal of the validator handed out a signature for this block. */
  ghost predicate Released(s: System, chainId: int, id: string, height: int, round: int, block: string) {
    && id in s.journals
    && exists i :: 0 <= i < |s.journals[id].log| && Releases(s.journals[id].log[i], chainId, (id, height, round), block)
  }

  ghost predicate Releases(entry: Journal.Entry, chainId: int, slot: Journal.Slot, block: string) {
    entry.returned && entry.chainId == chainId && entry.slot == slot && entry.blockHash == block
  }

  /** Signatures cannot be forged: a vote of an honest validator verifies only if its
      journal released that vote. */
  ghost predicate Verdict(s: System, vote: Vote, claimed: bool) {
    && claimed
    && (vote.validatorId in Honest(s) ==>
          Released(s, vote.chainId, vote.validatorId, vote.height, vote.round, Lower(vote.blockHash)))
  }

  ghost function Receive(c: Committee, replica: Replica, vote: Vote, verified: bool): Replica {
    replica.(machine := AddVote(From(c, replica.checkpoint), replica.machine, vote, verified).0)
  }

  ghost function Next(c: Committee, s: System, step: Step): System {
    match step
    case JournalStep(id, event) =>
      if id in s.journals then s.(journals := s.journals[id := Journal.Step(s.journals[id], event)]) else s
    case DeliverStep(r, vote, claimed) =>
      if r in s.replicas then
        s.(replicas := s.replicas[r := Receive(c, s.replicas[r], vote, Verdict(s, vote, claimed))])
      else s
    case RestartStep(r, checkpoint) =>
      if r in s.replicas && -1 <= checkpoint then s.(replicas := s.replicas[r := Replica(checkpoint, FRESH)]) else s
  }

  ghost function Run(c: Committee, s: System, steps: seq<Step>): System {
    if steps == [] then s else Next(c, Run(c, s, steps[..|steps| - 1]), steps[|steps| - 1])
  }

  /** Journals closed over whatever tables they were left with, and empty replicas, each from
      its own checkpoint. */
  ghost predicate Initial(s: System) {
    && (forall id | id in s.journals :: s.journals[id].handle == None && s.journals[id].log == [])
    && (forall r | r in s.replicas :: -1 <= s.replicas[r].checkpoint && s.replicas[r].machine == FRESH)
  }

  ghost predicate HonestVotesReleased(c: Committee, s: System, votes: map<Identity, Vote>) {
    forall k | k in votes && k.2 in Honest(s) :: Released(s, c.chainId, k.2, k.0, k.1, Lower(votes[k].blockHash))
  }

  ghost predicate SystemInvariant(c: Committee, s: System) {
    && (forall id | id in s.journals :: Journal.WorldInvariant(s.journals[id]))
    && (forall r | r in s.replicas :: ReplicaInvariant(c, s, s.replicas[r]))
  }

  ghost predicate ReplicaInvariant(c: Committee, s: System, replica: Replica) {
    Invariant(From(c, replica.checkpoint), replica.machine) && HonestVotesReleased(c, s, replica.machine.votes)
  }

  lemma ReleasedIsPermanent(c: Committee, s: System, step: Step, chainId: int, id: string, height: int, round: int,
                            block: string)
    requires Released(s, chainId, id, height, round, block)
    ensures Released(Next(c, s, step), chainId, id, height, round, block)
  {
    var i :| 0 <= i < |s.journals[id].log| && Releases(s.journals[id].log[i], chainId, (id, height, round), block);
    if step.JournalStep? && step.validatorId == id {
      JournalLogGrows(s.journals[id], step.event);
      assert Releases(Next(c, s, step).journals[id].log[i], chainId, (id, height, round), block);
    }
  }

  lemma JournalLogGrows(w: Journal.World, e: Journal.Event)
    ensures w.log <= Journal.Step(w, e).log
  {
  }

  lemma AddVoteRecords(c: Committee, m: Machine, vote: Vote, verified: bool)
    ensures var m' := AddVote(c, m, vote, verified).0;
            m'.votes == m.votes || (verified && vote.chainId == c.chainId &&
                                    m'.votes == m.votes[IdentityOf(vote) := vote])
  {
  }

  lemma ReceiveKeepsInvariant(c: Committee, s: System, s': System, replica: Replica, vote: Vote, claimed: bool)
    requires ReplicaInvariant(c, s, replica) && s'.journals == s.journals
    ensures ReplicaInvariant(c, s', Receive(c, replica, vote, Verdict(s, vote, claimed)))
  {
    var (at, m) := (From(c, replica.checkpoint), replica.machine);
    AddVoteKeepsInvariant(at, m, vote, Verdict(s, vote, claimed));
    AddVoteRecords(at, m, vote, Verdict(s, vote, claimed));
    SameJournals(c, s, s', m.votes);
    if AddVote(at, m, vote, Verdict(s, vote, claimed)).0.votes != m.votes {
      RecordedVoteReleased(c, s, s', vote, claimed, m.votes);
    }
  }

  lemma DeliverKeepsInvariant(c: Committee, s: System, r: int, vote: Vote, claimed: bool)
    requires SystemInvariant(c, s)
    ensures SystemInvariant(c, Next(c, s, DeliverStep(r, vote, claimed)))
  {
    var s' := Next(c, s, DeliverStep(r, vote, claimed));
    forall q | q in s'.replicas
      ensures ReplicaInvariant(c, s', s'.replicas[q])
    {
      SameJournals(c, s, s', s.replicas[q].machine.votes);
      if q == r { ReceiveKeepsInvariant(c, s, s', s.replicas[r], vote, claimed); }
    }
  }

  lemma RestartKeepsInvariant(c: Committee, s: System, r: int, checkpoint: int)
    requires c.Valid() && SystemInvariant(c, s)
    ensures SystemInvariant(c, Next(c, s, RestartStep(r, checkpoint)))
  {
    var s' := Next(c, s, RestartStep(r, checkpoint));
    forall q | q in s'.replicas
      ensures ReplicaInvariant(c, s', s'.replicas[q])
    {
      SameJournals(c, s, s', s.replicas[q].machine.votes);
      if s'.replicas[q] != s.replicas[q] { FreshInvariant(From(c, checkpoint)); }
    }
  }

  lemma SameJournals(c: Committee, s: System, s': System, votes: map<Identity, Vote>)
    requires s'.journals == s.journals && HonestVotesReleased(c, s, votes)
    ensures HonestVotesReleased(c, s', votes)
  {
    forall k | k in votes && k.2 in Honest(s')
      ensures Released(s', c.chainId, k.2, k.0, k.1, Lower(votes[k].blockHash))
    {
      assert Released(s, c.chainId, k.2, k.0, k.1, Lower(votes[k].blockHash));
    }
  }

  lemma RecordedVoteReleased(c: Committee, s: System, s': System, vote: Vote, claimed: bool, votes: map<Identity, Vote>)
    requires s'.journals == s.journals && HonestVotesReleased(c, s', votes)
    requires Verdict(s, vote, claimed) && vote.chainId == c.chainId
    ensures HonestVotesReleased(c, s', votes[IdentityOf(vote) := vote])
  {
    var votes' := votes[IdentityOf(vote) := vote];
    forall k | k in votes' && k.2 in Honest(s')
      ensures Released(s', c.chainId, k.2, k.0, k.1, Lower(votes'[k].blockHash))
    {
      if k == IdentityOf(vote) {
        assert Released(s, c.chainId, k.2, k.0, k.1, Lower(vote.blockHash));
      }
    }
  }

  lemma JournalKeepsInvariant(c: Committee, s: System, id: string, event: Journal.Event)
    requires SystemInvariant(c, s)
    ensures SystemInvariant(c, Next(c, s, JournalStep(id, event)))
  {
    var step := JournalStep(id, event);
    var s' := Next(c, s, step);
    if id in s.journals {
      Journal.StepKeepsInvariant(s.journals[id], event);
      forall r | r in s'.replicas
        ensures ReplicaInvariant(c, s', s'.replicas[r])
      {
        var votes := s.replicas[r].machine.votes;
        assert ReplicaInvariant(c, s, s.replicas[r]);
        forall k | k in votes && k.2 in Honest(s')
          ensures Released(s', c.chainId, k.2, k.0, k.1, Lower(votes[k].blockHash))
        {
          ReleasedIsPermanent(c, s, step, c.chainId, k.2, k.0, k.1, Lower(votes[k].blockHash));
        }
      }
    }
  }

  lemma {:induction false} RunKeepsInvariant(c: Committee, s: System, steps: seq<Step>)
    requires c.Valid() && Initial(s)
    ensures SystemInvariant(c, Run(c, s, steps))
    ensures Honest(Run(c, s, steps)) == Honest(s)
  {
    if steps == [] {
      forall r | r in s.replicas
        ensures ReplicaInvariant(c, s, s.replicas[r])
      {
        FreshInvariant(From(c, s.replicas[r].checkpoint));
      }
    } else {
      var before := Run(c, s, steps[..|steps| - 1]);
      RunKeepsInvariant(c, s, steps[..|steps| - 1]);
      match steps[|steps| - 1]
      case JournalStep(id, event) => JournalKeepsInvariant(c, before, id, event);
      case DeliverStep(r, vote, claimed) => DeliverKeepsInvariant(c, before, r, vote, claimed);
      case RestartStep(r, checkpoint) => RestartKeepsInvariant(c, before, r, checkpoint);
    }
  }

  /** An honest journal releases one block per height and round. */
  lemma ReleasedBlockUnique(s: System, chainId: int, id: string, height: int, round: int, block: string, block': string)
    requires id in s.journals && Journal.WorldInvariant(s.journals[id])
    requires Released(s, chainId, id, height, round, block) && Released(s, chainId, id, height, round, block')
    ensures block == block'
  {
    var log := s.journals[id].log;
    var i :| 0 <= i < |log| && Releases(log[i], chainId, (id, height, round), block);
    var j :| 0 <= j < |log| && Releases(log[j], chainId, (id, height, round), block');
    assert Journal.Backed(s.journals[id].disk, log[i]) && Journal.Backed(s.journals[id].disk, log[j]);
  }

  /** Some validator in both quorums is honest. */
  lemma HonestInBothQuorums(c: Committee, byzantine: set<string>, a: set<string>, b: set<string>) returns (id: string)
    requires a <= c.powers.Keys && b <= c.powers.Keys && byzantine <= c.powers.Keys
    requires Weight(c.powers, a) >= c.Quorum() && Weight(c.powers, b) >= c.Quorum()
    requires 3 * Weight(c.powers, byzantine) <= c.Total()
    ensures id in a && id in b && id !in byzantine
  {
    QuorumsIntersect(c, a, b);
    if a * b <= byzantine {
      WeightMonotone(c.powers, a * b, byzantine);
      assert false;
    }
    assert exists x :: x in a * b && x !in byzantine;
    id :| id in a * b && id !in byzantine;
  }

  /** A replica holds a certificate for a height. */
  ghost predicate Holds(s: System, r: int, height: int, cert: Certificate) {
    r in s.replicas && height in s.replicas[r].machine.finalized && s.replicas[r].machine.finalized[height] == cert
  }

  /** The signers of a certificate that a replica holds, honest ones having released it. */
  lemma CertificateSigners(c: Committee, s: System, r: int, height: int, cert: Certificate)
    returns (signers: set<string>)
    requires SystemInvariant(c, s) && Holds(s, r, height, cert)
    ensures signers <= c.powers.Keys && Weight(c.powers, signers) >= c.Quorum()
    ensures forall id | id in signers && id in Honest(s) ::
              Released(s, c.chainId, id, height, cert.round, cert.blockHash)
  {
    var (at, m) := (From(c, s.replicas[r].checkpoint), s.replicas[r].machine);
    assert ReplicaInvariant(c, s, s.replicas[r]);
    assert Certified(at, m.votes, height, cert);
    signers := Finality.Signers(at, m.votes, height, cert.round, cert.blockHash);
    forall id | id in signers && id in Honest(s)
      ensures Released(s, c.chainId, id, height, cert.round, cert.blockHash)
    {
      assert HonestVotesReleased(c, s, m.votes);
      assert (height, cert.round, id) in m.votes;
    }
  }

  lemma {:induction false} ReleasedLater(c: Committee, s: System, steps: seq<Step>, n: nat, chainId: int, id: string,
                                         height: int, round: int, block: string)
    requires n <= |steps| && Released(Run(c, s, steps[..n]), chainId, id, height, round, block)
    ensures Released(Run(c, s, steps), chainId, id, height, round, block)
    decreases |steps|
  {
    if n == |steps| {
      assert steps[..n] == steps;
    } else {
      var before := steps[..|steps| - 1];
      assert before[..n] == steps[..n];
      ReleasedLater(c, s, before, n, chainId, id, height, round, block);
      ReleasedIsPermanent(c, Run(c, s, before), steps[|steps| - 1], chainId, id, height, round, block);
    }
  }

  /** A replica holds the certificate at some time of the run. */
  ghost predicate EverHolds(c: Committee, s: System, steps: seq<Step>, r: int, height: int, cert: Certificate) {
    exists n :: 0 <= n <= |steps| && Holds(Run(c, s, steps[..n]), r, height, cert)
  }

  ghost predicate ByzantineThirdAtMost(c: Committee, s: System) {
    3 * Weight(c.powers, Byzantine(c, s)) <= c.Total()
  }

  /** Whoever signed a certificate that was ever held has released it by the end. */
  lemma EverHeldSigners(c: Committee, s: System, steps: seq<Step>, r: int, height: int, cert: Certificate)
    returns (signers: set<string>)
    requires c.Valid() && Initial(s) && EverHolds(c, s, steps, r, height, cert)
    ensures signers <= c.powers.Keys && Weight(c.powers, signers) >= c.Quorum()
    ensures forall id | id in signers && id in Honest(s) ::
              Released(Run(c, s, steps), c.chainId, id, height, cert.round, cert.blockHash)
  {
    var n :| 0 <= n <= |steps| && Holds(Run(c, s, steps[..n]), r, height, cert);
    RunKeepsInvariant(c, s, steps[..n]);
    signers := CertificateSigners(c, Run(c, s, steps[..n]), r, height, cert);
    forall id | id in signers && id in Honest(s)
      ensures Released(Run(c, s, steps), c.chainId, id, height, cert.round, cert.blockHash)
    {
      ReleasedLater(c, s, steps, n, c.chainId, id, height, cert.round, cert.blockHash);
    }
  }

  /** Agreement. In every run, if the Byzantine power is at most a third of the total, no two
      replicas ever hold certificates of one height and round for different blocks: not at the
      same time, not at different times, and not across restarts from any checkpoints. */
  lemma AgreementPerRound(c: Committee, s: System, steps: seq<Step>, r: int, r': int, height: int, cert: Certificate,
                          cert': Certificate)
    requires c.Valid() && Initial(s) && ByzantineThirdAtMost(c, s)
    requires EverHolds(c, s, steps, r, height, cert) && EverHolds(c, s, steps, r', height, cert')
    requires cert.round == cert'.round
    ensures cert.blockHash == cert'.blockHash
  {
    var end := Run(c, s, steps);
    RunKeepsInvariant(c, s, steps);
    var a := EverHeldSigners(c, s, steps, r, height, cert);
    var b := EverHeldSigners(c, s, steps, r', height, cert');
    var id := HonestInBothQuorums(c, Byzantine(c, s), a, b);
    ReleasedBlockUnique(end, c.chainId, id, height, cert.round, cert.blockHash, cert'.blockHash);
  }

  ghost predicate LogWithin(w: Journal.World, allowed: iset<(int, int)>) {
    forall i | 0 <= i < |w.log| :: (w.log[i].slot.1, w.log[i].slot.2) in allowed
  }

  /** The honest validators sign in these heights and rounds only. */
  ghost predicate SignsOnlyIn(s: System, allowed: iset<(int, int)>) {
    forall id | id in s.journals :: LogWithin(s.journals[id], allowed)
  }

  /** The honest validators sign each height in one round only. */
  ghost predicate OneRoundPerHeight(s: System, roundOf: int -> int) {
    forall id, i | id in s.journals && 0 <= i < |s.journals[id].log| ::
      s.journals[id].log[i].slot.2 == roundOf(s.journals[id].log[i].slot.1)
  }

  /** A certificate carries the round its honest signers used. */
  lemma CertificateRound(c: Committee, s: System, steps: seq<Step>, roundOf: int -> int, r: int, height: int,
                         cert: Certificate)
    requires c.Valid() && Initial(s) && ByzantineThirdAtMost(c, s)
    requires OneRoundPerHeight(Run(c, s, steps), roundOf) && EverHolds(c, s, steps, r, height, cert)
    ensures cert.round == roundOf(height)
  {
    var signers := EverHeldSigners(c, s, steps, r, height, cert);
    var id := HonestInBothQuorums(c, Byzantine(c, s), signers, signers);
    assert Released(Run(c, s, steps), c.chainId, id, height, cert.round, cert.blockHash);
  }

  /** With one round per height, replicas agree on every height they have ever finalized. */
  lemma AgreementPerHeight(c: Committee, s: System, steps: seq<Step>, roundOf: int -> int, r: int, r': int, height: int,
                           cert: Certificate, cert': Certificate)
    requires c.Valid() && Initial(s) && ByzantineThirdAtMost(c, s)
    requires OneRoundPerHeight(Run(c, s, steps), roundOf)
    requires EverHolds(c, s, steps, r, height, cert) && EverHolds(c, s, steps, r', height, cert')
    ensures cert.blockHash == cert'.blockHash
  {
    CertificateRound(c, s, steps, roundOf, r, height, cert);
    CertificateRound(c, s, steps, roundOf, r', height, cert');
    AgreementPerRound(c, s, steps, r, r', height, cert, cert');
  }
}
