/** Fork choice as the mutable object a node keeps. */
module FinalizedForkChoices {
  import opened ForkChoice
  import opened Prelude

  class FinalizedForkChoice {
    const chainId: int
    const genesisHash: string
    const quarantineThreshold: nat
    const powerAt: int -> int
    var claims: map<string, Claim>
    var canonical: map<int, Claim>
    var peers: map<string, Discipline>
    var safetyHalt: Option<(int, string, string)>

    ghost function Parameters(): Policy {
      Policy(chainId, genesisHash, quarantineThreshold, powerAt)
    }

    ghost function Contents(): State
      reads this
    {
      State(claims, canonical, peers, safetyHalt)
    }

    constructor (chainId: int, genesisHash: string, quarantineThreshold: nat, powerAt: int -> int)
      ensures Contents() == EMPTY
      ensures Parameters() == Policy(chainId, genesisHash, quarantineThreshold, powerAt)
    {
      this.chainId, this.genesisHash := chainId, genesisHash;
      this.quarantineThreshold, this.powerAt := quarantineThreshold, powerAt;
      claims, canonical, peers, safetyHalt := map[], map[], map[], None;
    }

    /** A fork choice under the given policy. Without a resolver, every height expects
        the same total power. */
    static method Create(chainId: int, genesisHash: string, expectedTotalPower: int, quarantineThreshold: int,
                         resolver: Option<int -> int>)
      returns (r: Option<FinalizedForkChoice>)
      ensures r.Some? <==>
              0 < chainId && 0 < expectedTotalPower && 0 < quarantineThreshold && IsHash(genesisHash)
      ensures r.Some? ==>
              && fresh(r.value) && r.value.Contents() == EMPTY
              && r.value.chainId == chainId && r.value.quarantineThreshold == quarantineThreshold
              && r.value.genesisHash == Lower(genesisHash)
              && (resolver.Some? ==> r.value.powerAt == resolver.value)
              && (resolver.None? ==> forall h :: r.value.powerAt(h) == expectedTotalPower)
    {
      if chainId <= 0 || expectedTotalPower <= 0 || quarantineThreshold <= 0 { return None; }
      if !IsHash(genesisHash) { return None; }
      var powerAt := if resolver.Some? then resolver.value else (_ => expectedTotalPower);
      var made := new FinalizedForkChoice(chainId, Lower(genesisHash), quarantineThreshold, powerAt);
      return Some(made);
    }

    method Head() returns (head: Option<Claim>)
      ensures head.None? <==> canonical.Keys == {}
      ensures head.Some? ==> IsHead(Contents(), head.value)
    {
      if canonical.Keys == {} { return None; }
      var top := Pick(canonical.Keys);
      var rest := canonical.Keys - {top};
      while rest != {}
        invariant top in canonical && rest <= canonical.Keys
        invariant forall h | h in canonical && h !in rest :: h <= top
        decreases rest
      {
        var h := Pick(rest);
        rest := rest - {h};
        if top < h { top := h; }
      }
      return Some(canonical[top]);
    }

    method RecordProtocolFault(peer: string) returns (updated: Discipline)
      modifies this
      ensures Contents() == RecordFault(Parameters(), old(Contents()), peer)
      ensures updated == DisciplineOf(Contents(), peer)
    {
      var current := if peer in peers then peers[peer] else Discipline(0, false);
      var faults := current.faults + 1;
      updated := Discipline(faults, faults >= quarantineThreshold);
      peers := peers[peer := updated];
    }

    method Fault(peer: string, e: SyncError) returns (r: Result<Claim, SyncError>)
      modifies this
      ensures Contents() == RecordFault(Parameters(), old(Contents()), peer)
      ensures r == Err(e)
    {
      var updated := RecordProtocolFault(peer);
      return Err(e);
    }

    method Observe(claim: Claim) returns (r: Result<Claim, SyncError>)
      modifies this
      ensures Contents() == ForkChoice.Observe(Parameters(), old(Contents()), claim)
      ensures match Refusal(Parameters(), old(Contents()), claim)
              case Some(e) => r == Err(e)
              case None => r.Ok? && IsHead(Contents(), r.value)
    {
      if safetyHalt.Some? { return Err(SafetyHalted); }
      if claim.chainId != chainId { r := Fault(claim.peerId, ChainMismatch); return; }
      if Lower(claim.genesisHash) != genesisHash { r := Fault(claim.peerId, GenesisMismatch); return; }
      var expected := powerAt(claim.height);
      if expected <= 0 { return Err(InvalidPower); }
      if claim.totalPower != expected { r := Fault(claim.peerId, PowerMismatch); return; }
      if claim.peerId in peers && peers[claim.peerId].quarantined { return Err(PeerQuarantined); }
      if claim.peerId in claims && claim.height < claims[claim.peerId].height {
        r := Fault(claim.peerId, HeightRegressed);
        return;
      }
      if claim.height in canonical && Lower(canonical[claim.height].blockHash) != Lower(claim.blockHash) {
        safetyHalt := Some((claim.height, Lower(canonical[claim.height].blockHash), Lower(claim.blockHash)));
        return Err(ConflictingFinality);
      }
      if claim.height - 1 in canonical && Lower(claim.parentHash) != Lower(canonical[claim.height - 1].blockHash) {
        r := Fault(claim.peerId, LinkageMismatch);
        return;
      }
      claims := claims[claim.peerId := claim];
      if claim.height !in canonical {
        canonical := canonical[claim.height := claim];
      }
      assert claim.height in canonical.Keys;
      var head := Head();
      return Ok(head.value);
    }
  }
}
