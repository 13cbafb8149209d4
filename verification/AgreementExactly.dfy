/** Exactly when replicas agree: for any Byzantine validators and any places in which the honest
    ones may sign, two blocks of one height can be finalized if and only if two quorums can part. */
module AgreementExactly {
  import opened Agreement
  import opened Finality
  import opened Prelude
  import opened RoundDisagreement
  import opened Votes
  import opened Weights
  import Journal = SigningJournal

  // --------------------------------------------------------------- statements

  /** The honest validators sign in the allowed heights and rounds only, and two replicas at some
      times hold certificates of the height, from these rounds, for different blocks. */
  ghost predicate EndsApart(c: Committee, allowed: iset<(int, int)>, height: int, rounds: (int, int), s: System,
                            steps: seq<Step>) {
    && Initial(s) && SignsOnlyIn(Agreement.Run(c, s, steps), allowed)
    && exists r, r', cert, cert' ::
         && EverHolds(c, s, steps, r, height, cert) && EverHolds(c, s, steps, r', height, cert')
         && (cert.round, cert'.round) == rounds && cert.blockHash != cert'.blockHash
  }

  ghost predicate CanEndApart(c: Committee, byzantine: set<string>, allowed: iset<(int, int)>, height: int,
                              rounds: (int, int)) {
    exists s, steps :: Byzantine(c, s) == byzantine && EndsApart(c, allowed, height, rounds, s, steps)
  }

  /** These validators may sign at this place, and their journals take their names. */
  ghost predicate MaySignAt(ids: set<string>, allowed: iset<(int, int)>, height: int, round: int) {
    forall id | id in ids :: Journal.IsValidatorId(id) && 0 < height && (height, round) in allowed
  }

  /** Two quorums whose honest members may sign in the two rounds, and that share only Byzantine
      validators if the rounds are the same. */
  ghost predicate CanPart(c: Committee, byzantine: set<string>, allowed: iset<(int, int)>, height: int,
                          rounds: (int, int), a: set<string>, b: set<string>)
  {
    && IsQuorum(c, a) && IsQuorum(c, b)
    && MaySignAt(a - byzantine, allowed, height, rounds.0) && MaySignAt(b - byzantine, allowed, height, rounds.1)
    && (rounds.0 == rounds.1 ==> a * b <= byzantine)
  }

  // ------------------------------------------------- disagreement needs a part

  lemma ReleasedIsCanonical(s: System, chainId: int, id: string, height: int, round: int, block: string)
    requires id in s.journals && Journal.WorldInvariant(s.journals[id])
    requires Released(s, chainId, id, height, round, block)
    ensures Journal.IsValidatorId(id) && 0 < height && 0 <= round
  {
    var w := s.journals[id];
    var i :| 0 <= i < |w.log| && Releases(w.log[i], chainId, (id, height, round), block);
    assert Journal.Backed(w.disk, w.log[i]);
    assert Journal.CanonicalRow(w.disk.chain.value, w.log[i].slot, w.disk.rows[w.log[i].slot]);
  }

  lemma ReleasedIsAllowed(s: System, allowed: iset<(int, int)>, chainId: int, id: string, height: int, round: int,
                          block: string)
    requires SignsOnlyIn(s, allowed) && Released(s, chainId, id, height, round, block)
    ensures (height, round) in allowed
  {
    var log := s.journals[id].log;
    var i :| 0 <= i < |log| && Releases(log[i], chainId, (id, height, round), block);
    assert LogWithin(s.journals[id], allowed);
  }

  lemma ReleasersMaySign(c: Committee, s: System, allowed: iset<(int, int)>, ids: set<string>, height: int, round: int,
                         block: string)
    requires SystemInvariant(c, s) && SignsOnlyIn(s, allowed)
    requires forall id | id in ids :: Released(s, c.chainId, id, height, round, block)
    ensures MaySignAt(ids, allowed, height, round)
  {
    forall id | id in ids
      ensures Journal.IsValidatorId(id) && 0 < height && (height, round) in allowed
    {
      ReleasedIsCanonical(s, c.chainId, id, height, round, block);
      ReleasedIsAllowed(s, allowed, c.chainId, id, height, round, block);
    }
  }

  /** Heights and rounds of certificates are not negative. */
  lemma CertificatePlace(c: Committee, votes: map<Identity, Vote>, height: int, cert: Certificate)
    requires Recorded(c, votes) && Certified(c, votes, height, cert)
    ensures 0 <= height && 0 <= cert.round
  {
    var signers := Finality.Signers(c, votes, height, cert.round, cert.blockHash);
    assert signers != {} by {
      assert Weight(c.powers, {}) == 0;
    }
    var id := Any(signers);
    assert (height, cert.round, id) in votes;
  }

  lemma HeldPlace(c: Committee, s: System, steps: seq<Step>, r: int, height: int, cert: Certificate)
    requires c.Valid() && Initial(s) && EverHolds(c, s, steps, r, height, cert)
    ensures 0 <= height && 0 <= cert.round
  {
    var n :| 0 <= n <= |steps| && Holds(Agreement.Run(c, s, steps[..n]), r, height, cert);
    var at := Agreement.Run(c, s, steps[..n]);
    RunKeepsInvariant(c, s, steps[..n]);
    assert ReplicaInvariant(c, at, at.replicas[r]);
    CertificatePlace(From(c, at.replicas[r].checkpoint), at.replicas[r].machine.votes, height, cert);
  }

  /** The signers of the two certificates are quorums that have parted. */
  lemma DisagreementParts(c: Committee, allowed: iset<(int, int)>, height: int, rounds: (int, int), s: System,
                          steps: seq<Step>)
    returns (a: set<string>, b: set<string>)
    requires c.Valid() && EndsApart(c, allowed, height, rounds, s, steps)
    ensures 0 <= height && 0 <= rounds.0 && 0 <= rounds.1
    ensures CanPart(c, Byzantine(c, s), allowed, height, rounds, a, b)
  {
    var r, r', cert, cert' :|
      && EverHolds(c, s, steps, r, height, cert) && EverHolds(c, s, steps, r', height, cert')
      && (cert.round, cert'.round) == rounds && cert.blockHash != cert'.blockHash;
    var (end, byzantine) := (Agreement.Run(c, s, steps), Byzantine(c, s));
    RunKeepsInvariant(c, s, steps);
    HeldPlace(c, s, steps, r, height, cert);
    HeldPlace(c, s, steps, r', height, cert');
    a := EverHeldSigners(c, s, steps, r, height, cert);
    b := EverHeldSigners(c, s, steps, r', height, cert');
    ReleasersMaySign(c, end, allowed, a - byzantine, height, cert.round, cert.blockHash);
    ReleasersMaySign(c, end, allowed, b - byzantine, height, cert'.round, cert'.blockHash);
    if rounds.0 == rounds.1 {
      forall id | id in a * b
        ensures id in byzantine
      {
        if id !in byzantine {
          ReleasedBlockUnique(end, c.chainId, id, height, cert.round, cert.blockHash, cert'.blockHash);
        }
      }
    }
  }

  // ---------------------------------------------------- parts give disagreement

  /** The hash text of one digit 64 times. */
  function Block(digit: char): (block: string)
    requires IsLowerHexDigit(digit)
    ensures IsCanonicalHash(block) && block[2] == digit
  {
    "0x" + DigitText(digit, 64)
  }

  lemma HoldsAtTheEnd(c: Committee, s: System, steps: seq<Step>, r: int, v: Choice) returns (cert: Certificate)
    requires HoldsFor(Agreement.Run(c, s, steps), r, v)
    ensures EverHolds(c, s, steps, r, v.height, cert) && cert.round == v.round && cert.blockHash == v.block
  {
    cert := Agreement.Run(c, s, steps).replicas[r].machine.finalized[v.height];
    assert steps[..|steps|] == steps;
    assert Holds(Agreement.Run(c, s, steps[..|steps|]), r, v.height, cert);
  }

  lemma PartsEndApart(c: Committee, byzantine: set<string>, allowed: iset<(int, int)>, height: int, rounds: (int, int),
                      a: set<string>, b: set<string>)
    requires c.Valid() && byzantine <= c.powers.Keys && 0 <= height && 0 <= rounds.0 && 0 <= rounds.1
    requires CanPart(c, byzantine, allowed, height, rounds, a, b)
    ensures CanEndApart(c, byzantine, allowed, height, rounds)
  {
    var (v, v') := (Choice(height, rounds.0, Block('0')), Choice(height, rounds.1, Block('1')));
    var s, steps := CampsCanDisagree(c, byzantine, allowed, Camp(a, v), Camp(b, v'));
    var cert := HoldsAtTheEnd(c, s, steps, 0, v);
    var cert' := HoldsAtTheEnd(c, s, steps, 1, v');
    assert EndsApart(c, allowed, height, rounds, s, steps);
  }

  // ----------------------------------------------------------------- theorems

  /** For any committee, any Byzantine validators, any places where the honest ones may sign, any
      height and any two rounds: some run finalizes two blocks if and only if two quorums can part. */
  lemma DisagreementIff(c: Committee, byzantine: set<string>, allowed: iset<(int, int)>, height: int,
                        rounds: (int, int))
    requires c.Valid() && byzantine <= c.powers.Keys
    ensures CanEndApart(c, byzantine, allowed, height, rounds) <==>
              && 0 <= height && 0 <= rounds.0 && 0 <= rounds.1
              && exists a, b :: CanPart(c, byzantine, allowed, height, rounds, a, b)
  {
    if CanEndApart(c, byzantine, allowed, height, rounds) {
      var s, steps :| Byzantine(c, s) == byzantine && EndsApart(c, allowed, height, rounds, s, steps);
      var a, b := DisagreementParts(c, allowed, height, rounds, s, steps);
    }
    if 0 <= height && 0 <= rounds.0 && 0 <= rounds.1 {
      if a, b :| CanPart(c, byzantine, allowed, height, rounds, a, b) {
        PartsEndApart(c, byzantine, allowed, height, rounds, a, b);
      }
    }
  }

  /** No two replicas ever hold certificates of one height and round for different blocks, in any
      run with these Byzantine validators. */
  ghost predicate AgreesPerRound(c: Committee, byzantine: set<string>) {
    forall s, steps, r, r', height, cert, cert' ::
      Initial(s) && Byzantine(c, s) == byzantine &&
      EverHolds(c, s, steps, r, height, cert) && EverHolds(c, s, steps, r', height, cert') &&
        cert.round == cert'.round ==>
        cert.blockHash == cert'.blockHash
  }

  ghost predicate QuorumsShareHonest(c: Committee, byzantine: set<string>) {
    forall a, b :: IsQuorum(c, a) && IsQuorum(c, b) ==> !(a * b <= byzantine)
  }

  ghost const ANYWHERE := iset place: (int, int) | true

  /** Agreement per round holds in all runs exactly when no two quorums meet in Byzantine
      validators only. */
  lemma AgreementPerRoundIff(c: Committee, byzantine: set<string>)
    requires c.Valid() && Nameable(c) && byzantine <= c.powers.Keys
    ensures AgreesPerRound(c, byzantine) <==> QuorumsShareHonest(c, byzantine)
  {
    if QuorumsShareHonest(c, byzantine) {
      forall s, steps, r, r', height, cert, cert' |
        Initial(s) && Byzantine(c, s) == byzantine &&
        EverHolds(c, s, steps, r, height, cert) && EverHolds(c, s, steps, r', height, cert') &&
          cert.round == cert'.round
        ensures cert.blockHash == cert'.blockHash
      {
        if cert.blockHash != cert'.blockHash {
          assert EndsApart(c, ANYWHERE, height, (cert.round, cert'.round), s, steps);
          var a, b := DisagreementParts(c, ANYWHERE, height, (cert.round, cert'.round), s, steps);
        }
      }
    }
    if a, b :| IsQuorum(c, a) && IsQuorum(c, b) && a * b <= byzantine {
      PartsEndApart(c, byzantine, ANYWHERE, 1, (0, 0), a, b);
      DisagreementRefutesAgreement(c, byzantine);
    }
  }

  lemma DisagreementRefutesAgreement(c: Committee, byzantine: set<string>)
    requires CanEndApart(c, byzantine, ANYWHERE, 1, (0, 0))
    ensures !AgreesPerRound(c, byzantine)
  {
    var s, steps :| Byzantine(c, s) == byzantine && EndsApart(c, ANYWHERE, 1, (0, 0), s, steps);
    var r, r', cert, cert' :|
      && EverHolds(c, s, steps, r, 1, cert) && EverHolds(c, s, steps, r', 1, cert')
      && (cert.round, cert'.round) == (0, 0) && cert.blockHash != cert'.blockHash;
  }

  /** No two replicas ever hold certificates of this height for different blocks, in any run with at
      most a Byzantine third in which the honest validators sign in the allowed places only. */
  ghost predicate AgreesPerHeight(c: Committee, allowed: iset<(int, int)>, height: int) {
    forall s, steps, r, r', cert, cert' ::
      Initial(s) && ByzantineThirdAtMost(c, s) && SignsOnlyIn(Agreement.Run(c, s, steps), allowed) &&
      EverHolds(c, s, steps, r, height, cert) && EverHolds(c, s, steps, r', height, cert') ==>
        cert.blockHash == cert'.blockHash
  }

  /** Two rounds of the height are allowed that a journal signs in at all. */
  ghost predicate TwoRounds(allowed: iset<(int, int)>, height: int) {
    0 < height && exists round, round' ::
      0 <= round < round' && (height, round) in allowed && (height, round') in allowed
  }

  /** Agreement per height holds in all these runs exactly when no two rounds of the height are
      allowed. */
  lemma AgreementPerHeightIff(c: Committee, allowed: iset<(int, int)>, height: int)
    requires c.Valid() && Nameable(c)
    ensures AgreesPerHeight(c, allowed, height) <==> !TwoRounds(allowed, height)
  {
    if !TwoRounds(allowed, height) {
      forall s, steps, r, r', cert, cert' |
        Initial(s) && ByzantineThirdAtMost(c, s) && SignsOnlyIn(Agreement.Run(c, s, steps), allowed) &&
        EverHolds(c, s, steps, r, height, cert) && EverHolds(c, s, steps, r', height, cert')
        ensures cert.blockHash == cert'.blockHash
      {
        if cert.blockHash != cert'.blockHash {
          assert EndsApart(c, allowed, height, (cert.round, cert'.round), s, steps);
          ApartNeedsTwoRounds(c, allowed, height, (cert.round, cert'.round), s, steps);
        }
      }
    } else {
      var round, round' :| 0 <= round < round' && (height, round) in allowed && (height, round') in allowed;
      QuorumOfAll(c);
      PartsEndApart(c, {}, allowed, height, (round, round'), c.powers.Keys, c.powers.Keys);
      ApartRefutesAgreement(c, allowed, height, (round, round'));
    }
  }

  lemma QuorumOfAll(c: Committee)
    requires c.Valid()
    ensures IsQuorum(c, c.powers.Keys)
  {
    var id := Any(c.powers.Keys);
    WeightRemove(c.powers, c.powers.Keys, id);
  }

  lemma ApartNeedsTwoRounds(c: Committee, allowed: iset<(int, int)>, height: int, rounds: (int, int), s: System,
                            steps: seq<Step>)
    requires c.Valid() && ByzantineThirdAtMost(c, s) && EndsApart(c, allowed, height, rounds, s, steps)
    ensures TwoRounds(allowed, height)
  {
    var a, b := DisagreementParts(c, allowed, height, rounds, s, steps);
    var id := HonestInBothQuorums(c, Byzantine(c, s), a, b);
    assert id in a - Byzantine(c, s) && id in b - Byzantine(c, s);
    assert rounds.0 != rounds.1;
    assert (height, rounds.0) in allowed && (height, rounds.1) in allowed;
  }

  lemma ApartRefutesAgreement(c: Committee, allowed: iset<(int, int)>, height: int, rounds: (int, int))
    requires CanEndApart(c, {}, allowed, height, rounds)
    ensures !AgreesPerHeight(c, allowed, height)
  {
    var s, steps :| Byzantine(c, s) == {} && EndsApart(c, allowed, height, rounds, s, steps);
    assert ByzantineThirdAtMost(c, s);
    var r, r', cert, cert' :|
      && EverHolds(c, s, steps, r, height, cert) && EverHolds(c, s, steps, r', height, cert')
      && (cert.round, cert'.round) == rounds && cert.blockHash != cert'.blockHash;
  }
}
