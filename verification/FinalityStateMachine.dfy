/** The finality machine as the mutable object the validators run. */
module FinalityStateMachines {
  import opened Finality
  import opened Ordering
  import opened Prelude
  import opened Votes
  import opened Weights

  datatype SetupError =
    | ChainIdNotPositive
    | CheckpointBelowMinusOne
    | FewerThanThreeValidators
    | RepeatedValidator

  /** A validator with the checks of its own constructor, except the 128-byte bound
      on the identity. */
  type ValidValidator = v: Validator | v.validatorId != "" && 0 < v.votingPower
    witness Validator("v", 1)

  function Identities(items: seq<ValidValidator>): set<string> {
    set i | 0 <= i < |items| :: items[i].validatorId
  }

  /** Listing an identity twice leaves fewer identities than entries. */
  lemma {:induction false} DistinctIffAsMany(items: seq<ValidValidator>)
    ensures |Identities(items)| <= |items|
    ensures |Identities(items)| == |items| <==>
            forall i, j | 0 <= i < j < |items| :: items[i].validatorId != items[j].validatorId
  {
    if items != [] {
      var last := |items| - 1;
      var before := items[..last];
      DistinctIffAsMany(before);
      assert Identities(items) == Identities(before) + {items[last].validatorId};
      if items[last].validatorId in Identities(before) {
        var i :| 0 <= i < last && before[i].validatorId == items[last].validatorId;
        assert items[i].validatorId == items[last].validatorId;
      }
    }
  }

  ghost predicate Matches(byId: map<string, nat>, items: seq<ValidValidator>, n: nat)
    requires n <= |items|
  {
    forall i | 0 <= i < n :: items[i].validatorId in byId && byId[items[i].validatorId] == items[i].votingPower
  }

  /** `byId` and `total` are what the first `n` entries add up to, as long as no
      identity was repeated among them. */
  ghost predicate Tabulated(byId: map<string, nat>, total: nat, items: seq<ValidValidator>, n: nat)
    requires n <= |items|
  {
    && byId.Keys == Identities(items[..n])
    && |byId.Keys| <= n
    && (|byId.Keys| == n ==> Matches(byId, items, n) && total == Weight(byId, byId.Keys))
    && (forall id | id in byId :: 0 < byId[id])
  }

  lemma IdentitiesGrow(items: seq<ValidValidator>, n: nat)
    requires n < |items|
    ensures Identities(items[..n + 1]) == Identities(items[..n]) + {items[n].validatorId}
    ensures forall i | 0 <= i < n :: items[i].validatorId in Identities(items[..n])
  {
    assert forall i | 0 <= i < n :: items[..n][i] == items[i] == items[..n + 1][i];
    assert items[..n + 1][n] == items[n];
  }

  lemma GrownWeight(w: map<string, nat>, id: string, power: nat)
    requires id !in w
    ensures var w' := w[id := power];
            w'.Keys == w.Keys + {id} && |w'.Keys| == |w.Keys| + 1 && Weight(w', w'.Keys) == Weight(w, w.Keys) + power
  {
    var w' := w[id := power];
    assert w'.Keys == w.Keys + {id};
    WeightAgree(w, w', w.Keys);
    WeightInsert(w', w.Keys, id);
  }

  /** A repeated identity leaves the dictionary short from then on. */
  lemma TabulatedRepeat(byId: map<string, nat>, total: nat, items: seq<ValidValidator>, n: nat, total': nat)
    requires n < |items| && Tabulated(byId, total, items, n) && items[n].validatorId in byId
    ensures Tabulated(byId[items[n].validatorId := items[n].votingPower], total', items, n + 1)
  {
    IdentitiesGrow(items, n);
    assert byId[items[n].validatorId := items[n].votingPower].Keys == byId.Keys;
  }

  lemma TabulatedStep(byId: map<string, nat>, total: nat, items: seq<ValidValidator>, n: nat)
    requires n < |items| && Tabulated(byId, total, items, n)
    ensures var item := items[n];
            Tabulated(byId[item.validatorId := item.votingPower], total + item.votingPower, items, n + 1)
  {
    var (id, power) := (items[n].validatorId, items[n].votingPower);
    if id in byId {
      TabulatedRepeat(byId, total, items, n, total + power);
    } else {
      IdentitiesGrow(items, n);
      GrownWeight(byId, id, power);
      if |byId.Keys| == n { MatchesStep(byId, items, n); }
    }
  }

  lemma MatchesStep(byId: map<string, nat>, items: seq<ValidValidator>, n: nat)
    requires n < |items| && Matches(byId, items, n) && items[n].validatorId !in byId
    ensures Matches(byId[items[n].validatorId := items[n].votingPower], items, n + 1)
  {
  }

  class FinalityStateMachine {
    const chainId: int
    const validators: map<string, nat>
    const totalPower: nat
    const checkpointHeight: int
    var votes: map<Identity, Vote>
    var finalized: map<int, Certificate>
    var equivocations: set<Identity>

    ghost function Parameters(): Committee {
      Committee(chainId, validators, checkpointHeight)
    }

    ghost function State(): Machine
      reads this
    {
      Machine(votes, finalized, equivocations)
    }

    ghost predicate Valid()
      reads this
    {
      && Parameters().Valid()
      && totalPower == Parameters().Total()
      && Invariant(Parameters(), State())
    }

    constructor (chainId: int, powers: map<string, nat>, totalPower: nat, checkpoint: int)
      requires Committee(chainId, powers, checkpoint).Valid()
      requires totalPower == Committee(chainId, powers, checkpoint).Total()
      ensures Valid() && State() == FRESH
      ensures Parameters() == Committee(chainId, powers, checkpoint)
    {
      this.chainId := chainId;
      this.validators := powers;
      this.totalPower := totalPower;
      this.checkpointHeight := checkpoint;
      votes, finalized, equivocations := map[], map[], {};
      new;
      FreshInvariant(Parameters());
    }

    /** Builds a machine, or says what is wrong with its parameters. */
    static method Create(chainId: int, items: seq<ValidValidator>, checkpoint: int)
      returns (r: Result<FinalityStateMachine, SetupError>)
      ensures r.Ok? <==>
              && 0 < chainId && -1 <= checkpoint && 3 <= |items|
              && forall i, j | 0 <= i < j < |items| :: items[i].validatorId != items[j].validatorId
      ensures r.Err? ==>
                && (r.error == ChainIdNotPositive <==> chainId <= 0)
                && (r.error == CheckpointBelowMinusOne <==> 0 < chainId && checkpoint < -1)
                && (r.error == FewerThanThreeValidators <==> 0 < chainId && -1 <= checkpoint && |items| < 3)
      ensures r.Ok? ==> fresh(r.value) && r.value.Valid() && r.value.State() == FRESH
      ensures r.Ok? ==> r.value.chainId == chainId && r.value.checkpointHeight == checkpoint
      ensures r.Ok? ==> r.value.validators.Keys == Identities(items)
      ensures r.Ok? ==> Matches(r.value.validators, items, |items|)
    {
      if chainId <= 0 { return Err(ChainIdNotPositive); }
      if checkpoint < -1 { return Err(CheckpointBelowMinusOne); }
      if |items| < 3 { return Err(FewerThanThreeValidators); }
      DistinctIffAsMany(items);
      var byId, total := ById(items);
      assert items[..|items|] == items;
      if |byId.Keys| != |items| { return Err(RepeatedValidator); }
      var machine := new FinalityStateMachine(chainId, byId, total, checkpoint);
      return Ok(machine);
    }

    /** The dictionary of the validators by identity, and the sum of their powers. */
    static method ById(items: seq<ValidValidator>) returns (byId: map<string, nat>, total: nat)
      ensures Tabulated(byId, total, items, |items|)
    {
      byId, total := map[], 0;
      for n := 0 to |items|
        invariant Tabulated(byId, total, items, n)
      {
        TabulatedStep(byId, total, items, n);
        byId := byId[items[n].validatorId := items[n].votingPower];
        total := total + items[n].votingPower;
      }
    }

    method QuorumPower() returns (power: nat)
      requires Valid()
      ensures power == Parameters().Quorum()
    {
      power := totalPower * 2 / 3 + 1;
    }

    method LatestFinalizedHeight() returns (latest: int)
      ensures latest == LatestFinalized(Parameters(), finalized)
    {
      latest := checkpointHeight;
      var rest, seen := finalized.Keys, false;
      while rest != {}
        invariant rest <= finalized.Keys
        invariant seen <==> rest != finalized.Keys
        invariant seen ==> latest in finalized && latest !in rest
        invariant seen ==> forall h | h in finalized && h !in rest :: h <= latest
        invariant !seen ==> latest == checkpointHeight
        decreases rest
      {
        var h := Pick(rest);
        rest := rest - {h};
        if !seen || latest < h { latest := h; }
        seen := true;
      }
    }

    method ValidateVote(vote: Vote, verifier: Vote -> bool) returns (refusal: Option<FinalityError>)
      ensures refusal == Refusal(Parameters(), State(), vote, verifier(vote))
    {
      if vote.chainId != chainId { return Some(ChainMismatch); }
      if vote.height < 0 || vote.round < 0 { return Some(NegativeHeightOrRound); }
      if !IsHash(vote.blockHash) { return Some(MalformedBlockHash); }
      if vote.validatorId !in validators { return Some(UnknownValidator); }
      if vote.signature == [] || |vote.signature| > 4096 { return Some(SignatureLength); }
      if !verifier(vote) { return Some(SignatureRejected); }
      var latest := LatestFinalizedHeight();
      if vote.height < latest { return Some(BelowHead); }
      if vote.height > latest + 1 { return Some(NotNextHeight); }
      return None;
    }

    /** The votes recorded for the block of `vote` in its round, and their power. */
    method Matching(vote: Vote) returns (signers: set<string>, power: nat)
      requires Recorded(Parameters(), votes)
      ensures signers == Signers(Parameters(), votes, vote.height, vote.round, Lower(vote.blockHash))
      ensures power == Tally(Parameters(), votes, vote.height, vote.round, Lower(vote.blockHash))
    {
      signers, power := {}, 0;
      var rest := votes.Keys;
      while rest != {}
        invariant rest <= votes.Keys
        invariant signers <= validators.Keys
        invariant forall id :: id in signers <==>
                    && (vote.height, vote.round, id) in votes.Keys - rest
                    && Lower(votes[(vote.height, vote.round, id)].blockHash) == Lower(vote.blockHash)
        invariant power == Weight(validators, signers)
        decreases rest
      {
        var k :| k in rest;
        rest := rest - {k};
        var item := votes[k];
        if item.height == vote.height && item.round == vote.round && Lower(item.blockHash) == Lower(vote.blockHash) {
          assert item.validatorId !in signers;
          WeightInsert(validators, signers, item.validatorId);
          signers := signers + {item.validatorId};
          power := power + validators[item.validatorId];
        }
      }
      assert signers == Signers(Parameters(), votes, vote.height, vote.round, Lower(vote.blockHash));
    }

    method BuildCertificate(vote: Vote, signers: set<string>, power: nat) returns (cert: Certificate)
      requires totalPower == Parameters().Total()
      requires signers == Signers(Parameters(), votes, vote.height, vote.round, Lower(vote.blockHash))
      requires power == Weight(validators, signers)
      ensures cert == Certify(Parameters(), votes, vote.height, vote.round, Lower(vote.blockHash))
    {
      var ids := SortNames(signers);
      SortNamesLists(signers);
      var hashes := HashesOf(vote, ids);
      var block := Lower(vote.blockHash);
      var body := CertificateBody(block, chainId, vote.height, vote.round, power, totalPower, ids, hashes);
      cert := Certificate(chainId, vote.height, vote.round, block, power, totalPower, ids, hashes,
                          CertificateHash(body));
    }

    method HashesOf(vote: Vote, ids: seq<string>) returns (hashes: seq<VoteHash>)
      requires forall i | 0 <= i < |ids| :: (vote.height, vote.round, ids[i]) in votes
      ensures hashes == VoteHashes(votes, vote.height, vote.round, ids)
    {
      hashes := [];
      for i := 0 to |ids|
        invariant |hashes| == i
        invariant forall j | 0 <= j < i :: hashes[j] == votes[(vote.height, vote.round, ids[j])].Hash()
      {
        hashes := hashes + [votes[(vote.height, vote.round, ids[i])].Hash()];
      }
    }

    method AddVote(vote: Vote, verifier: Vote -> bool) returns (reply: Reply)
      requires Valid()
      modifies this
      ensures Valid()
      ensures (State(), reply) == Finality.AddVote(Parameters(), old(State()), vote, verifier(vote))
    {
      ghost var before := State();
      AddVoteKeepsInvariant(Parameters(), before, vote, verifier(vote));
      var refusal := ValidateVote(vote, verifier);
      if refusal.Some? { return Err(refusal.value); }
      if vote.height in finalized {
        if finalized[vote.height].blockHash == Lower(vote.blockHash) {
          return Ok(Some(finalized[vote.height]));
        }
        return Err(ConflictsWithFinalized);
      }
      var identity := IdentityOf(vote);
      if identity in votes {
        if Lower(votes[identity].blockHash) == Lower(vote.blockHash) {
          return Ok(None);
        }
        equivocations := equivocations + {identity};
        return Err(EquivocationDetected);
      }
      reply := RecordVote(vote);
    }

    /** Records the first vote of a validator at its height and round, and finalizes the block
        when it now has a quorum. */
    method RecordVote(vote: Vote) returns (reply: Reply)
      requires Recorded(Parameters(), votes) && Admissible(Parameters(), vote) && totalPower == Parameters().Total()
      modifies this`votes, this`finalized
      ensures (State(), reply) == Record(Parameters(), old(State()), vote)
    {
      votes := votes[IdentityOf(vote) := vote];
      var signers, power := Matching(vote);
      var quorum := totalPower * 2 / 3 + 1;
      if power < quorum { return Ok(None); }
      var certificate := BuildCertificate(vote, signers, power);
      reply := SettleCertificate(vote.height, certificate);
    }

    /** The late guards, as the program has them, and then the certificate takes its place. */
    method SettleCertificate(height: int, certificate: Certificate) returns (reply: Reply)
      modifies this`finalized
      ensures (State(), reply) == Settle(Parameters(), old(State()), height, certificate)
    {
      if height in finalized && finalized[height].certificateHash != certificate.certificateHash {
        return Err(FinalizedDifferently);
      }
      var latest := LatestFinalizedHeight();
      if (latest == -1 && height != 0) || (latest >= 0 && latest != height - 1 && latest != height) {
        return Err(NotContiguous);
      }
      finalized := finalized[height := certificate];
      return Ok(Some(certificate));
    }
  }
}
