/** The candidate checker by itself: what it accepts without a plan is what the compiler makes of some plan. */
module GenesisUnbound {
  import opened GenesisCandidate
  import opened GenesisPlan
  import opened GenesisRecords
  import opened Prelude

  /** The candidate with its texts stripped and its addresses in lower case. */
  function Normal(c: RawCandidate): RawCandidate {
    c.(economics := NormalEconomics(c.economics),
       accounts := NormalAccounts(c.accounts),
       allocationApproval := NormalApproval(c.allocationApproval),
       safekeeping := NormalSafekeeping(c.safekeeping))
  }

  /** All milestones reached. */
  function Reached(n: nat): (r: seq<Milestone>)
    requires n <= |LockedMilestones()|
    ensures |r| == n
    ensures forall i | 0 <= i < n ::
              r[i] == Milestone(LockedMilestones()[i].0, LockedMilestones()[i].1, Completed, "x")
  {
    if n == 0 then []
    else Reached(n - 1) + [Milestone(LockedMilestones()[n - 1].0, LockedMilestones()[n - 1].1, Completed, "x")]
  }

  const ALL_GATES: set<Gate> := {
    NativeEconomicsLocked, DeterministicGenesisAllocations, CustodyKeyCeremony, IndependentSecurityReview,
    DisasterRecoveryRehearsal, ProductionSloAnd24hSoak, GovernanceReleaseAuthorization, CeoFinalApproval}

  /** A plan that has come all the way to this candidate. */
  function PlanBehind(c: RawCandidate): RawPlan {
    RawPlan(PlanHeader, Body(c.economics, Allocations(true, c.accounts, c.allocationApproval), c.safekeeping,
                             ALL_GATES, Reached(|LockedMilestones()|)))
  }

  lemma ReachedIsValid()
    ensures MilestonesValid(Reached(|LockedMilestones()|), ALL_GATES)
    ensures forall i | 0 <= i < |LockedMilestones()| :: Clean(Reached(|LockedMilestones()|)[i].owner)
  {
    var milestones := Reached(|LockedMilestones()|);
    assert Strip("x") == "x";
    forall i | 0 <= i < |milestones|
      ensures MilestoneValid(i, milestones[i], ALL_GATES)
    {
    }
  }

  lemma PlanBehindIsClean(c: RawCandidate)
    requires CandidateClean(c)
    ensures BodyClean(PlanBehind(c).body)
  {
    ReachedIsValid();
  }

  lemma PlanBehindSections(c: RawCandidate)
    requires EconomicsValid(c.economics) && CandidateAllocationsValid(c) && CandidateCustodyValid(c)
    ensures SectionsValid(PlanBehind(c).body)
  {
  }

  lemma GateIsThere(g: Gate)
    ensures g in ALL_GATES
  {
    match g
    case NativeEconomicsLocked =>
    case DeterministicGenesisAllocations =>
    case CustodyKeyCeremony =>
    case IndependentSecurityReview =>
    case DisasterRecoveryRehearsal =>
    case ProductionSloAnd24hSoak =>
    case GovernanceReleaseAuthorization =>
    case CeoFinalApproval =>
  }

  lemma PlanBehindGates(c: RawCandidate)
    requires c.economics.definition.locked && IsApproved(c.economics.approval) && IsApproved(c.allocationApproval)
    requires c.safekeeping.custody.locked && IsApproved(c.safekeeping.approval)
    ensures GatesMatch(PlanBehind(c).body) && Ready(PlanOf(PlanBehind(c)))
  {
    GatesMatchNormal(PlanBehind(c).body);
    ReadyIff(PlanOf(PlanBehind(c)));
    forall g: Gate
      ensures g in PlanOf(PlanBehind(c)).body.passed
    {
      GateIsThere(g);
    }
  }

  lemma PlanBehindIsValid(c: RawCandidate)
    requires CandidateValid(c)
    ensures PlanValid(PlanBehind(c)) && Ready(PlanOf(PlanBehind(c)))
  {
    PlanBehindIsClean(c);
    PlanBehindSections(c);
    PlanBehindGates(c);
    ReachedIsValid();
  }

  lemma PlanBehindCompiles(c: RawCandidate)
    requires CandidateValid(c) && c == Normal(c) && Ready(PlanOf(PlanBehind(c)))
    ensures Compile(PlanOf(PlanBehind(c))) == c.(source := PlanDigest(PlanBehind(c)))
  {
    CanonicalIff(Addresses(c.accounts));
    SortedLeavesOrdered(c.accounts, Address);
  }

  /** The candidate is what the compiler makes of the plan, apart from the digest of the plan. */
  ghost predicate ComesFrom(c: RawCandidate, raw: RawPlan) {
    PlanValid(raw) && Ready(PlanOf(raw)) && Compile(PlanOf(raw)) == c.(source := PlanDigest(raw))
  }

  lemma SourceIsOnlyADigest(c: RawCandidate, source: Digest)
    requires CandidateValid(c) && IsDigest(source)
    ensures CandidateValid(c.(source := source))
  {
  }

  lemma ComesFromIsAccepted(c: RawCandidate, raw: RawPlan)
    requires ComesFrom(c, raw) && IsDigest(c.source)
    ensures CandidateValid(c)
  {
    CompiledIsValid(raw);
    SourceIsOnlyADigest(Compile(PlanOf(raw)), c.source);
    assert c == c.(source := PlanDigest(raw)).(source := c.source);
  }

  /** A candidate in normal form passes the checker alone exactly when it is compiled from some valid plan that is
      ready, and names any digest as its source. */
  lemma UnboundIff(c: RawCandidate)
    requires c == Normal(c)
    ensures Accepts(c, None) <==> IsDigest(c.source) && exists raw :: ComesFrom(c, raw)
  {
    if Accepts(c, None) {
      PlanBehindIsValid(c);
      PlanBehindCompiles(c);
      assert ComesFrom(c, PlanBehind(c));
    }
    if raw :| ComesFrom(c, raw) && IsDigest(c.source) { ComesFromIsAccepted(c, raw); }
  }

  lemma NormalIsClean(c: RawCandidate)
    requires CandidateValid(c)
    ensures CandidateClean(Normal(c))
  {
    TermsTwice(c.economics.definition.terms);
    AccountsStayClean(c.accounts);
    OptStripTwice(c.economics.approval.recordId, 200);
    OptStripTwice(c.allocationApproval.recordId, 200);
    OptStripTwice(c.safekeeping.approval.recordId, 200);
  }

  lemma NormalTwice(c: RawCandidate)
    requires CandidateValid(c)
    ensures Normal(Normal(c)) == Normal(c)
  {
    TermsTwice(c.economics.definition.terms);
    AccountsTwice(c.accounts);
    CustodyTwice(c.safekeeping.custody);
    OptStripTwice(c.economics.approval.recordId, 200);
    OptStripTwice(c.allocationApproval.recordId, 200);
    OptStripTwice(c.safekeeping.approval.recordId, 200);
  }

  lemma NormalIsValid(c: RawCandidate)
    requires CandidateValid(c)
    ensures CandidateValid(Normal(c))
  {
    var (d, a) := (NormalDefinition(c.economics.definition), Allocations(true, c.accounts, c.allocationApproval));
    NormalIsClean(c);
    EconomicsTwice(c.economics);
    CompiledAllocations(d, a, Normal(c));
    CompiledCustody(d, a, c.safekeeping, Normal(c));
  }

  /** Whatever the checker accepts alone, it accepts in normal form, which therefore comes from a plan. */
  lemma AcceptedComesFromPlan(c: RawCandidate) returns (raw: RawPlan)
    requires Accepts(c, None)
    ensures ComesFrom(Normal(c), raw)
  {
    NormalIsValid(c);
    NormalTwice(c);
    UnboundIff(Normal(c));
    raw :| ComesFrom(Normal(c), raw);
  }
}
