/** Finalized fork choice: what one claim or fault does, and what every run keeps. */
module ForkChoice {
  import opened Prelude

  datatype Claim = Claim(
    peerId: string,
    chainId: int,
    genesisHash: string,
    height: int,
    blockHash: string,
    parentHash: string,
    stateRoot: string,
    signedPower: int,
    totalPower: int)
  {
    /** The checks of the claim's own constructor. */
    predicate Valid() {
      && peerId != "" && 0 < chainId && 0 <= height
      && IsHash(genesisHash) && IsHash(blockHash) && IsHash(parentHash) && IsHash(stateRoot)
      && 0 < signedPower <= totalPower
      && signedPower * 3 > totalPower * 2
    }
  }

  datatype Discipline = Discipline(faults: nat, quarantined: bool)

  datatype Policy = Policy(chainId: int, genesisHash: string, quarantineThreshold: nat, powerAt: int -> int)

  datatype State = State(
    claims: map<string, Claim>,
    canonical: map<int, Claim>,
    discipline: map<string, Discipline>,
    halt: Option<(int, string, string)>)

  const EMPTY := State(map[], map[], map[], None)

  datatype SyncError =
    | SafetyHalted
    | ChainMismatch
    | GenesisMismatch
    | InvalidPower
    | PowerMismatch
    | PeerQuarantined
    | HeightRegressed
    | ConflictingFinality
    | LinkageMismatch

  function DisciplineOf(s: State, peer: string): Discipline {
    if peer in s.discipline then s.discipline[peer] else Discipline(0, false)
  }

  function RecordFault(p: Policy, s: State, peer: string): State {
    var faults := DisciplineOf(s, peer).faults + 1;
    s.(discipline := s.discipline[peer := Discipline(faults, faults >= p.quarantineThreshold)])
  }

  predicate SameBlock(a: string, b: string) {
    Lower(a) == Lower(b)
  }

  /** The fault a claim is charged with before its block is looked at, or the refusal. */
  function Screen(p: Policy, s: State, claim: Claim): Option<SyncError> {
    if s.halt.Some? then Some(SafetyHalted)
    else if claim.chainId != p.chainId then Some(ChainMismatch)
    else if Lower(claim.genesisHash) != p.genesisHash then Some(GenesisMismatch)
    else if p.powerAt(claim.height) <= 0 then Some(InvalidPower)
    else if claim.totalPower != p.powerAt(claim.height) then Some(PowerMismatch)
    else if DisciplineOf(s, claim.peerId).quarantined then Some(PeerQuarantined)
    else if claim.peerId in s.claims && claim.height < s.claims[claim.peerId].height then Some(HeightRegressed)
    else None
  }

  predicate IsFault(e: SyncError) {
    e in {ChainMismatch, GenesisMismatch, PowerMismatch, HeightRegressed, LinkageMismatch}
  }

  predicate Conflicts(s: State, claim: Claim) {
    claim.height in s.canonical && !SameBlock(s.canonical[claim.height].blockHash, claim.blockHash)
  }

  predicate Unlinked(s: State, claim: Claim) {
    claim.height - 1 in s.canonical && !SameBlock(claim.parentHash, s.canonical[claim.height - 1].blockHash)
  }

  /** Why a claim is refused, if it is. */
  function Refusal(p: Policy, s: State, claim: Claim): Option<SyncError> {
    if Screen(p, s, claim).Some? then Screen(p, s, claim)
    else if Conflicts(s, claim) then Some(ConflictingFinality)
    else if Unlinked(s, claim) then Some(LinkageMismatch)
    else None
  }

  function Observe(p: Policy, s: State, claim: Claim): State {
    match Refusal(p, s, claim)
    case Some(e) =>
      if e == ConflictingFinality then
        s.(halt := Some((claim.height, Lower(s.canonical[claim.height].blockHash), Lower(claim.blockHash))))
      else if IsFault(e) then RecordFault(p, s, claim.peerId)
      else s
    case None =>
      s.(claims := s.claims[claim.peerId := claim],
         canonical := if claim.height in s.canonical then s.canonical else s.canonical[claim.height := claim])
  }

  datatype Event = Observed(claim: Claim) | Faulted(peer: string)

  function Step(p: Policy, s: State, e: Event): State {
    match e
    case Observed(claim) => Observe(p, s, claim)
    case Faulted(peer) => RecordFault(p, s, peer)
  }

  ghost function Run(p: Policy, s: State, es: seq<Event>): State {
    if es == [] then s else Step(p, Run(p, s, es[..|es| - 1]), es[|es| - 1])
  }

  // ---------------------------------------------------------------- invariant

  /** Every kept claim names the canonical block of its height, and a peer is in quarantine
      exactly when its faults have reached the threshold. */
  ghost predicate Invariant(p: Policy, s: State) {
    && (forall peer | peer in s.claims ::
          && s.claims[peer].height in s.canonical
          && SameBlock(s.claims[peer].blockHash, s.canonical[s.claims[peer].height].blockHash))
    && (forall h | h in s.canonical :: s.canonical[h].height == h)
    && (forall peer | peer in s.discipline ::
          s.discipline[peer].quarantined <==> s.discipline[peer].faults >= p.quarantineThreshold)
  }

  lemma AcceptedKeepsInvariant(p: Policy, s: State, claim: Claim)
    requires Invariant(p, s) && Refusal(p, s, claim).None?
    ensures Invariant(p, Observe(p, s, claim))
  {
    assert !Conflicts(s, claim);
  }

  lemma FaultKeepsInvariant(p: Policy, s: State, peer: string)
    requires Invariant(p, s)
    ensures Invariant(p, RecordFault(p, s, peer))
  {
  }

  lemma StepInvariant(p: Policy, s: State, e: Event)
    requires Invariant(p, s)
    ensures Invariant(p, Step(p, s, e))
  {
    if e.Observed? && Refusal(p, s, e.claim).None? {
      AcceptedKeepsInvariant(p, s, e.claim);
    } else {
      FaultKeepsInvariant(p, s, if e.Observed? then e.claim.peerId else e.peer);
    }
  }

  lemma {:induction false} RunInvariant(p: Policy, es: seq<Event>)
    ensures Invariant(p, Run(p, EMPTY, es))
  {
    if es != [] {
      RunInvariant(p, es[..|es| - 1]);
      StepInvariant(p, Run(p, EMPTY, es[..|es| - 1]), es[|es| - 1]);
    }
  }

  /** Nothing that was settled is taken back: canonical entries are write-once, no peer's
      height falls, no fault is forgotten, and a halt with everything but the faults is final. */
  ghost predicate Extends(s: State, s': State) {
    && (forall h | h in s.canonical :: h in s'.canonical && s'.canonical[h] == s.canonical[h])
    && (forall peer | peer in s.claims :: peer in s'.claims && s.claims[peer].height <= s'.claims[peer].height)
    && (forall peer :: DisciplineOf(s, peer).faults <= DisciplineOf(s', peer).faults)
    && (s.halt.Some? ==> s'.halt == s.halt && s'.canonical == s.canonical && s'.claims == s.claims)
  }

  lemma {:induction false} RunExtends(p: Policy, s: State, es: seq<Event>, n: nat)
    requires n <= |es|
    ensures Extends(Run(p, s, es[..n]), Run(p, s, es))
    decreases |es|
  {
    if n == |es| {
      assert es[..n] == es;
    } else {
      var before := es[..|es| - 1];
      assert before[..n] == es[..n];
      RunExtends(p, s, before, n);
      StepExtends(p, Run(p, s, before), es[|es| - 1]);
    }
  }

  lemma StepExtends(p: Policy, s: State, e: Event)
    ensures Extends(s, Step(p, s, e))
  {
  }

  ghost predicate IsHead(s: State, claim: Claim) {
    exists h :: h in s.canonical && s.canonical[h] == claim && forall k | k in s.canonical :: k <= h
  }

  /** The head never moves down. */
  lemma HeadNeverFalls(p: Policy, es: seq<Event>, n: nat, early: Claim, late: Claim)
    requires n <= |es|
    requires IsHead(Run(p, EMPTY, es[..n]), early) && IsHead(Run(p, EMPTY, es), late)
    ensures early.height <= late.height
  {
    RunExtends(p, EMPTY, es, n);
    RunInvariant(p, es[..n]);
    RunInvariant(p, es);
  }

  /** A quarantined peer stays quarantined and no claim of its can change what is canonical,
      what is kept for any peer, or the halt. */
  lemma QuarantineSilences(p: Policy, s: State, claim: Claim)
    requires Invariant(p, s) && DisciplineOf(s, claim.peerId).quarantined
    ensures var s' := Observe(p, s, claim);
            && s'.canonical == s.canonical && s'.claims == s.claims && s'.halt == s.halt
            && DisciplineOf(s', claim.peerId).quarantined
            && forall peer | peer != claim.peerId :: DisciplineOf(s', peer) == DisciplineOf(s, peer)
  {
  }

  // -------------------------------------------------------------- safety halt

  /** The claim of this event was accepted as canonical for its height. */
  ghost predicate Installed(s: State, h: int, es: seq<Event>, i: nat) {
    h in s.canonical && i < |es| && es[i].Observed? && es[i].claim == s.canonical[h]
  }

  lemma {:induction false} CanonicalWasObserved(p: Policy, es: seq<Event>, h: int) returns (i: nat)
    requires h in Run(p, EMPTY, es).canonical
    ensures Installed(Run(p, EMPTY, es), h, es, i)
  {
    var before := Run(p, EMPTY, es[..|es| - 1]);
    if h in before.canonical {
      i := CanonicalWasObserved(p, es[..|es| - 1], h);
      StepExtends(p, before, es[|es| - 1]);
      assert es[..|es| - 1][i] == es[i];
    } else {
      i := |es| - 1;
    }
  }

  /** Two events claim different finalized blocks of one height. */
  ghost predicate Contradict(es: seq<Event>, i: nat, j: nat) {
    && i < |es| && j < |es| && es[i].Observed? && es[j].Observed?
    && es[i].claim.height == es[j].claim.height
    && !SameBlock(es[i].claim.blockHash, es[j].claim.blockHash)
  }

  /** A halt is always evidence: two of the claims observed contradict each other. */
  lemma {:induction false} HaltNeedsContradiction(p: Policy, es: seq<Event>) returns (i: nat, j: nat)
    requires Run(p, EMPTY, es).halt.Some?
    ensures Contradict(es, i, j)
  {
    var before := Run(p, EMPTY, es[..|es| - 1]);
    if before.halt.Some? {
      i, j := HaltNeedsContradiction(p, es[..|es| - 1]);
      assert es[..|es| - 1][i] == es[i] && es[..|es| - 1][j] == es[j];
    } else {
      j := |es| - 1;
      RunInvariant(p, es[..j]);
      i := CanonicalWasObserved(p, es[..j], es[j].claim.height);
      assert es[..j][i] == es[i];
    }
  }

  /** A contradicting claim that passes screening does halt, at once and for good. */
  lemma ContradictionHalts(p: Policy, s: State, claim: Claim)
    ensures Observe(p, s, claim).halt.Some? <==>
            s.halt.Some? || (Screen(p, s, claim).None? && Conflicts(s, claim))
  {
  }

  // ----------------------------------------------------------------- linkage

  ghost predicate LinkedAt(s: State, h: int) {
    h in s.canonical && h - 1 in s.canonical ==> SameBlock(s.canonical[h].parentHash, s.canonical[h - 1].blockHash)
  }

  ghost predicate Linked(s: State) {
    forall h :: LinkedAt(s, h)
  }

  /** The claim goes in below a canonical block that does not name it as its parent. */
  predicate BackfillsBadly(s: State, claim: Claim) {
    && claim.height !in s.canonical
    && claim.height + 1 in s.canonical
    && !SameBlock(s.canonical[claim.height + 1].parentHash, claim.blockHash)
  }

  /** Parent links survive an accepted claim exactly when it is not a bad backfill: the code
      checks only the link downwards. */
  lemma LinkageKeptIff(p: Policy, s: State, claim: Claim)
    requires Linked(s) && Refusal(p, s, claim).None?
    ensures Linked(Observe(p, s, claim)) <==> !BackfillsBadly(s, claim)
  {
    var s' := Observe(p, s, claim);
    if BackfillsBadly(s, claim) {
      assert !LinkedAt(s', claim.height + 1);
    } else {
      forall h
        ensures LinkedAt(s', h)
      {
        assert LinkedAt(s, h);
      }
    }
  }

  /** The event installs nothing below a height that is already installed. */
  ghost predicate UpwardAt(p: Policy, es: seq<Event>, n: nat)
    requires n < |es|
  {
    var s := Run(p, EMPTY, es[..n]);
    es[n].Observed? ==> es[n].claim.height in s.canonical || es[n].claim.height + 1 !in s.canonical
  }

  /** In runs that never install a height after its successor, the canonical blocks are
      linked throughout. */
  lemma {:induction false} UpwardRunsStayLinked(p: Policy, es: seq<Event>)
    requires forall n | 0 <= n < |es| :: UpwardAt(p, es, n)
    ensures Linked(Run(p, EMPTY, es))
  {
    if es != [] {
      var last := |es| - 1;
      forall n | 0 <= n < last
        ensures UpwardAt(p, es[..last], n)
      {
        assert es[..last][..n] == es[..n] && UpwardAt(p, es, n);
      }
      UpwardRunsStayLinked(p, es[..last]);
      assert UpwardAt(p, es, last);
      UpwardStepStaysLinked(p, Run(p, EMPTY, es[..last]), es[last]);
    }
  }

  lemma UpwardStepStaysLinked(p: Policy, s: State, e: Event)
    requires Linked(s)
    requires e.Observed? ==> e.claim.height in s.canonical || e.claim.height + 1 !in s.canonical
    ensures Linked(Step(p, s, e))
  {
    if e.Observed? && Refusal(p, s, e.claim).None? {
      LinkageKeptIff(p, s, e.claim);
    } else {
      FaultsKeepLinks(p, s, e);
    }
  }

  lemma FaultsKeepLinks(p: Policy, s: State, e: Event)
    requires e.Observed? ==> Refusal(p, s, e.claim).Some?
    ensures Linked(Step(p, s, e)) <==> Linked(s)
  {
    var s' := Step(p, s, e);
    assert s'.canonical == s.canonical;
    assert forall h :: LinkedAt(s', h) <==> LinkedAt(s, h);
  }

  ghost predicate BackfilledBadlyAt(p: Policy, es: seq<Event>, n: nat)
    requires n < |es|
  {
    var s := Run(p, EMPTY, es[..n]);
    es[n].Observed? && Refusal(p, s, es[n].claim).None? && BackfillsBadly(s, es[n].claim)
  }

  ghost predicate LinkedAfter(p: Policy, es: seq<Event>, n: nat)
    requires n <= |es|
  {
    Linked(Run(p, EMPTY, es[..n]))
  }

  ghost predicate LinkedThroughout(p: Policy, es: seq<Event>) {
    forall n | 0 <= n <= |es| :: LinkedAfter(p, es, n)
  }

  ghost predicate NeverBackfilledBadly(p: Policy, es: seq<Event>) {
    forall n | 0 <= n < |es| :: !BackfilledBadlyAt(p, es, n)
  }

  lemma LinkedThroughoutSplits(p: Policy, es: seq<Event>)
    requires es != []
    ensures LinkedThroughout(p, es) <==> LinkedThroughout(p, es[..|es| - 1]) && LinkedAfter(p, es, |es|)
  {
    var before := es[..|es| - 1];
    forall n | 0 <= n <= |before|
      ensures LinkedAfter(p, es, n) <==> LinkedAfter(p, before, n)
    {
      assert es[..n] == before[..n];
    }
  }

  lemma NeverBackfilledSplits(p: Policy, es: seq<Event>)
    requires es != []
    ensures NeverBackfilledBadly(p, es) <==>
            NeverBackfilledBadly(p, es[..|es| - 1]) && !BackfilledBadlyAt(p, es, |es| - 1)
  {
    var before := es[..|es| - 1];
    forall n | 0 <= n < |before|
      ensures BackfilledBadlyAt(p, es, n) <==> BackfilledBadlyAt(p, before, n)
    {
      assert es[..n] == before[..n];
    }
  }

  /** Over runs: the canonical blocks are linked throughout exactly when no accepted claim was
      put below a block that does not name it as its parent. */
  lemma {:induction false} LinkedThroughoutIff(p: Policy, es: seq<Event>)
    ensures LinkedThroughout(p, es) <==> NeverBackfilledBadly(p, es)
  {
    if es != [] {
      var (before, last) := (es[..|es| - 1], es[|es| - 1]);
      var s := Run(p, EMPTY, before);
      LinkedThroughoutIff(p, before);
      LinkedThroughoutSplits(p, es);
      NeverBackfilledSplits(p, es);
      assert es[..|es|] == es && before[..|before|] == before;
      if LinkedThroughout(p, before) {
        assert LinkedAfter(p, before, |before|);
        if last.Observed? && Refusal(p, s, last.claim).None? {
          LinkageKeptIff(p, s, last.claim);
        } else {
          FaultsKeepLinks(p, s, last);
        }
      }
    }
  }

  /** And links can break: two claims of different peers that pass the screen, the higher one
      first and not naming the lower one, are both accepted and end unlinked. */
  lemma BackfillUnlinks(p: Policy, upper: Claim, lower: Claim)
    requires Screen(p, EMPTY, upper).None? && Screen(p, EMPTY, lower).None? && upper.peerId != lower.peerId
    requires upper.height == lower.height + 1 && !SameBlock(upper.parentHash, lower.blockHash)
    ensures var s := Run(p, EMPTY, [Observed(upper), Observed(lower)]);
            && s.canonical == map[upper.height := upper, lower.height := lower]
            && s.halt.None? && !Linked(s)
  {
    var es := [Observed(upper), Observed(lower)];
    assert es[..1][..0] == [] && Run(p, EMPTY, es[..1]) == Observe(p, EMPTY, upper);
    var s := Run(p, EMPTY, es);
    assert s == Observe(p, Observe(p, EMPTY, upper), lower);
    assert !LinkedAt(s, upper.height);
  }
}
