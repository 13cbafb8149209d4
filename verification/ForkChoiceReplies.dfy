/** Which claims are accepted, which are charged as faults, and what every run guarantees of the claims
    it keeps, with every condition written out. */
module ForkChoiceReplies {
  import opened ForkChoice
  import opened Prelude

  /** The claim is for this network, and its total power is that of the committee of its height. */
  ghost predicate Ours(p: Policy, claim: Claim) {
    && claim.chainId == p.chainId && Lower(claim.genesisHash) == p.genesisHash
    && claim.totalPower == p.powerAt(claim.height) && 1 <= p.powerAt(claim.height)
  }

  ghost predicate Quarantined(s: State, peer: string) {
    peer in s.discipline && s.discipline[peer].quarantined
  }

  /** The peer has claimed a greater height before. */
  ghost predicate FallsBack(s: State, claim: Claim) {
    claim.peerId in s.claims && s.claims[claim.peerId].height > claim.height
  }

  /** Another block is canonical at the claim's height. */
  ghost predicate Contests(s: State, claim: Claim) {
    claim.height in s.canonical && Lower(s.canonical[claim.height].blockHash) != Lower(claim.blockHash)
  }

  /** The canonical block just below is not the parent. */
  ghost predicate Misnames(s: State, claim: Claim) {
    claim.height - 1 in s.canonical && Lower(s.canonical[claim.height - 1].blockHash) != Lower(claim.parentHash)
  }

  ghost predicate PassesScreen(p: Policy, s: State, claim: Claim) {
    s.halt.None? && Ours(p, claim) && !Quarantined(s, claim.peerId) && !FallsBack(s, claim)
  }

  /** A claim is accepted exactly when the node has not halted, the claim is for this network and
      committee, its peer is neither quarantined nor falling back, and it contradicts neither the
      canonical block of its height nor the one below. It is then its peer's claim, and canonical unless
      its height had a canonical claim already; nothing else changes. */
  lemma AcceptedIff(p: Policy, s: State, claim: Claim)
    ensures var (refusal, s') := (Refusal(p, s, claim), Observe(p, s, claim));
            && (refusal.None? <==> PassesScreen(p, s, claim) && !Contests(s, claim) && !Misnames(s, claim))
            && (refusal.None? ==>
                  s' == State(s.claims[claim.peerId := claim],
                              if claim.height in s.canonical then s.canonical else s.canonical[claim.height := claim],
                              s.discipline, s.halt))
  {
  }

  /** A claim that passes the screen and contests a canonical block halts the node, and halting is all
      it does; the halt names the height and both blocks. */
  lemma HaltedIff(p: Policy, s: State, claim: Claim)
    ensures var (refusal, s') := (Refusal(p, s, claim), Observe(p, s, claim));
            && (refusal == Some(ConflictingFinality) <==> PassesScreen(p, s, claim) && Contests(s, claim))
            && (refusal == Some(ConflictingFinality) ==>
                  s' == s.(halt := Some((claim.height, Lower(s.canonical[claim.height].blockHash),
                                         Lower(claim.blockHash)))))
            && (refusal != Some(ConflictingFinality) ==> s'.halt == s.halt)
  {
  }

  /** A fault in a claim, for which its peer is charged. */
  ghost predicate IsCharged(p: Policy, s: State, claim: Claim) {
    var genuine := claim.chainId == p.chainId && Lower(claim.genesisHash) == p.genesisHash;
    && s.halt.None?
    && (|| !genuine
        || (genuine && p.powerAt(claim.height) >= 1 && claim.totalPower != p.powerAt(claim.height))
        || (Ours(p, claim) && !Quarantined(s, claim.peerId) &&
            (FallsBack(s, claim) || (!Contests(s, claim) && Misnames(s, claim)))))
  }

  /** Each refusal is given exactly when its check is the first that fails. */
  lemma RefusedIff(p: Policy, s: State, claim: Claim)
    ensures var refusal := Refusal(p, s, claim);
            var live := s.halt.None? && claim.chainId == p.chainId;
            var genuine := live && Lower(claim.genesisHash) == p.genesisHash;
            && (refusal == Some(SafetyHalted) <==> s.halt.Some?)
            && (refusal == Some(ChainMismatch) <==> s.halt.None? && claim.chainId != p.chainId)
            && (refusal == Some(GenesisMismatch) <==> live && Lower(claim.genesisHash) != p.genesisHash)
            && (refusal == Some(InvalidPower) <==> genuine && p.powerAt(claim.height) < 1)
            && (refusal == Some(PowerMismatch) <==>
                  genuine && p.powerAt(claim.height) >= 1 && claim.totalPower != p.powerAt(claim.height))
            && (refusal == Some(PeerQuarantined) <==>
                  s.halt.None? && Ours(p, claim) && Quarantined(s, claim.peerId))
            && (refusal == Some(HeightRegressed) <==>
                  s.halt.None? && Ours(p, claim) && !Quarantined(s, claim.peerId) && FallsBack(s, claim))
            && (refusal == Some(LinkageMismatch) <==>
                  PassesScreen(p, s, claim) && !Contests(s, claim) && Misnames(s, claim))
  {
  }

  ghost function FaultsOf(s: State, peer: string): nat {
    if peer in s.discipline then s.discipline[peer].faults else 0
  }

  /** The event is charged to the peer: it reports the peer's fault, or is a faulty claim of the peer. */
  ghost predicate ChargedTo(p: Policy, s: State, e: Event, peer: string) {
    match e
    case Faulted(q) => q == peer
    case Observed(claim) => claim.peerId == peer && IsCharged(p, s, claim)
  }

  /** A charge raises the peer's count by one and quarantines it from the threshold on; nobody else's
      discipline changes, and a charge changes nothing else. */
  lemma ChargeEffect(p: Policy, s: State, e: Event, peer: string)
    ensures var s' := Step(p, s, e);
            && FaultsOf(s', peer) == FaultsOf(s, peer) + (if ChargedTo(p, s, e, peer) then 1 else 0)
            && (Quarantined(s', peer) <==>
                  if ChargedTo(p, s, e, peer) then FaultsOf(s', peer) >= p.quarantineThreshold
                  else Quarantined(s, peer))
            && (ChargedTo(p, s, e, peer) ==>
                  s'.claims == s.claims && s'.canonical == s.canonical && s'.halt == s.halt)
  {
  }

  // ---------------------------------------------------------------------- runs

  /** How many events of a run are charged to a peer. */
  ghost function Charges(p: Policy, es: seq<Event>, peer: string): nat {
    if es == [] then 0
    else
      var (before, last) := (es[..|es| - 1], es[|es| - 1]);
      Charges(p, before, peer) + if ChargedTo(p, Run(p, EMPTY, before), last, peer) then 1 else 0
  }

  /** After any run a peer's fault count is the number of faults charged to it, and it is quarantined
      exactly when it has been charged at all and the count has reached the threshold. */
  lemma {:induction false} FaultsAreCharges(p: Policy, es: seq<Event>, peer: string)
    ensures FaultsOf(Run(p, EMPTY, es), peer) == Charges(p, es, peer)
    ensures Quarantined(Run(p, EMPTY, es), peer) <==>
              Charges(p, es, peer) >= 1 && Charges(p, es, peer) >= p.quarantineThreshold
  {
    if es != [] {
      FaultsAreCharges(p, es[..|es| - 1], peer);
      ChargeEffect(p, Run(p, EMPTY, es[..|es| - 1]), es[|es| - 1], peer);
    }
  }

  ghost predicate KeepsOurs(p: Policy, s: State) {
    && (forall h | h in s.canonical :: s.canonical[h].height == h && Ours(p, s.canonical[h]))
    && (forall peer | peer in s.claims :: s.claims[peer].peerId == peer && Ours(p, s.claims[peer]))
  }

  lemma StepKeepsOurs(p: Policy, s: State, e: Event)
    requires KeepsOurs(p, s)
    ensures KeepsOurs(p, Step(p, s, e))
  {
    if e.Observed? { AcceptedIff(p, s, e.claim); }
  }

  /** Every claim that any run keeps or makes canonical is for this chain, this genesis and the power of
      the committee of its height. */
  lemma {:induction false} KeptClaimsAreOurs(p: Policy, es: seq<Event>)
    ensures KeepsOurs(p, Run(p, EMPTY, es))
  {
    if es != [] {
      KeptClaimsAreOurs(p, es[..|es| - 1]);
      StepKeepsOurs(p, Run(p, EMPTY, es[..|es| - 1]), es[|es| - 1]);
    }
  }

  /** A claim can be made exactly when its fields are in form and less than a third of the power is missing. */
  lemma ClaimValidIff(c: Claim)
    ensures c.Valid() <==>
              && c.peerId != "" && 1 <= c.chainId && -1 < c.height
              && (forall hash | hash in [c.genesisHash, c.blockHash, c.parentHash, c.stateRoot] :: IsHash(hash))
              && 1 <= c.signedPower && 0 <= c.totalPower - c.signedPower
              && 3 * (c.totalPower - c.signedPower) < c.totalPower
  {
    var hashes := [c.genesisHash, c.blockHash, c.parentHash, c.stateRoot];
    assert hashes[0] == c.genesisHash && hashes[1] == c.blockHash && hashes[2] == c.parentHash;
    assert hashes[3] == c.stateRoot;
  }
}
