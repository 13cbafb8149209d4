/** The native-token Genesis plan: what makes it valid, what blocks the ceremony, and where it
    stands against the calendar. */
module GenesisPlan {
  import opened GenesisRecords
  import opened Prelude

  // ------------------------------------------------------------------ records

  datatype SupplyModel = FixedSupply | CappedSupply | ProtocolGoverned | OtherSupply(text: string)

  datatype Issuance = Disabled | GovernanceUpgradeOnly | OtherIssuance(text: string)

  datatype FeeModel = Burn | ValidatorReward | BurnAndReward | OtherFee(text: string)

  datatype Terms = Terms(
    name: Option<string>,
    symbol: Option<string>,
    decimals: Option<int>,
    supply: Option<int>,
    supplyModel: Option<SupplyModel>,
    issuance: Option<Issuance>,
    feeModel: Option<FeeModel>)

  datatype Definition = Definition(locked: bool, terms: Terms)

  datatype Allocation = Allocation(address: string, amount: int, category: string)

  datatype Custody = Custody(locked: bool, threshold: Option<int>, participants: seq<string>, evidence: Option<Digest>)

  /** A point in time as text, with whether the text is a UTC timestamp. */
  datatype Stamp = Stamp(text: string, utc: bool)

  datatype Status = ApprovalRequired | Approved | OtherStatus(text: string)

  /** Evidence of an approval; `bindings` are the digests it approves. */
  datatype Approval = Approval(
    status: Status,
    recordId: Option<string>,
    bindings: seq<Option<Digest>>,
    record: Option<Digest>,
    at: Option<Stamp>)

  datatype Economics = Economics(definition: Definition, approval: Approval)

  datatype Allocations = Allocations(locked: bool, accounts: seq<Allocation>, approval: Approval)

  datatype Safekeeping = Safekeeping(custody: Custody, approval: Approval)

  datatype Gate =
    | NativeEconomicsLocked
    | DeterministicGenesisAllocations
    | CustodyKeyCeremony
    | IndependentSecurityReview
    | DisasterRecoveryRehearsal
    | ProductionSloAnd24hSoak
    | GovernanceReleaseAuthorization
    | CeoFinalApproval

  datatype MilestoneStatus = NotStarted | InProgress | Completed | OtherProgress(text: string)

  datatype Milestone = Milestone(id: string, due: int, status: MilestoneStatus, owner: string)

  datatype Body = Body(
    economics: Economics,
    allocations: Allocations,
    safekeeping: Safekeeping,
    passed: set<Gate>,
    milestones: seq<Milestone>)

  /** The constant fields of a document, taken together. */
  datatype Header = PlanHeader | CandidateHeader | DecisionHeader | OtherHeader(text: string)

  datatype RawPlan = RawPlan(header: Header, body: Body)

  /** Digests stand for what they are digests of; anything else is foreign. */
  datatype Digest =
    | DefinitionDigest(terms: Terms)
    | AllocationsDigest(accounts: seq<Allocation>)
    | CustodyDigest(custody: Custody)
    | CustodyCommitment(custody: Custody)
    | PlanDigest(plan: RawPlan)
    | RecordDigest(recordId: string, at: Stamp, evidence: Digest, approves: seq<Digest>)
    | ForeignDigest(text: string)
    | NotADigest(text: string)

  /** An evaluated plan: normal forms, and the digest of the document. */
  datatype Plan = Plan(body: Body, digest: Digest)

  // ----------------------------------------------------------------- sections

  predicate IsUpper(c: char) { 'A' <= c <= 'Z' }

  predicate IsSymbol(s: string) {
    2 <= |s| <= 10 && IsUpper(s[0]) && forall i | 1 <= i < |s| :: IsUpper(s[i]) || '0' <= s[i] <= '9'
  }

  predicate Complete(t: Terms) {
    && t.name.Some? && t.symbol.Some? && t.decimals.Some? && t.supply.Some?
    && t.supplyModel.Some? && t.issuance.Some? && t.feeModel.Some?
  }

  predicate TermsValid(t: Terms) {
    && OptTextValid(t.name, 64)
    && OptTextValid(t.symbol, 10) && (t.symbol.Some? ==> IsSymbol(Strip(t.symbol.value)))
    && (t.decimals.Some? ==> 0 <= t.decimals.value <= 18)
    && (t.supply.Some? ==> 0 < t.supply.value)
    && (t.supplyModel.Some? ==> !t.supplyModel.value.OtherSupply?)
    && (t.issuance.Some? ==> !t.issuance.value.OtherIssuance?)
    && (t.feeModel.Some? ==> !t.feeModel.value.OtherFee?)
  }

  predicate DefinitionValid(d: Definition) {
    TermsValid(d.terms) && (d.locked ==> Complete(d.terms))
  }

  function NormalTerms(t: Terms): Terms {
    t.(name := OptStrip(t.name), symbol := OptStrip(t.symbol))
  }

  function NormalDefinition(d: Definition): Definition {
    Definition(d.locked, NormalTerms(d.terms))
  }

  function Address(a: Allocation): string { a.address }

  function Addresses(accounts: seq<Allocation>): seq<string> {
    Keys(accounts, Address)
  }

  predicate AccountsValid(accounts: seq<Allocation>) {
    && AddressesValid(Addresses(accounts))
    && forall i | 0 <= i < |accounts| :: 0 < accounts[i].amount && TextValid(accounts[i].category, 64)
  }

  function NormalAccount(a: Allocation): Allocation {
    Allocation(Lower(a.address), a.amount, Strip(a.category))
  }

  function NormalAccounts(accounts: seq<Allocation>): (r: seq<Allocation>)
    ensures |r| == |accounts| && forall i | 0 <= i < |r| :: r[i] == NormalAccount(accounts[i])
  {
    if accounts == [] then []
    else NormalAccounts(accounts[..|accounts| - 1]) + [NormalAccount(accounts[|accounts| - 1])]
  }

  function Total(accounts: seq<Allocation>): int {
    if accounts == [] then 0 else Total(accounts[..|accounts| - 1]) + accounts[|accounts| - 1].amount
  }

  predicate IsDigest(d: Digest) {
    !d.NotADigest?
  }

  predicate CustodyValid(c: Custody) {
    && AddressesValid(c.participants)
    && (c.evidence.Some? ==> IsDigest(c.evidence.value))
    && (c.locked ==>
          |c.participants| >= 3 && c.threshold.Some? && 2 <= c.threshold.value <= |c.participants| && c.evidence.Some?)
  }

  function NormalCustody(c: Custody): Custody {
    c.(participants := LowerAll(c.participants))
  }

  predicate NoEvidence(a: Approval) {
    a.recordId.None? && a.record.None? && a.at.None? && forall i | 0 <= i < |a.bindings| :: a.bindings[i].None?
  }

  predicate FullEvidence(a: Approval, bindings: seq<Digest>) {
    && a.recordId.Some? && a.record.Some? && a.at.Some?
    && forall i | 0 <= i < |a.bindings| :: i < |bindings| && a.bindings[i] == Some(bindings[i])
  }

  predicate EvidenceWellFormed(a: Approval) {
    && OptTextValid(a.recordId, 200)
    && (a.record.Some? ==> IsDigest(a.record.value))
    && (a.at.Some? ==> a.at.value.utc)
    && forall i | 0 <= i < |a.bindings| :: a.bindings[i].Some? ==> IsDigest(a.bindings[i].value)
  }

  /** An approval goes with what it approves: none without the lock and its prerequisites, and
      no lock without one. */
  predicate ApprovalValid(a: Approval, locked: bool, prerequisites: bool, bindings: seq<Digest>) {
    && |a.bindings| == |bindings|
    && EvidenceWellFormed(a)
    && match a.status
       case ApprovalRequired => NoEvidence(a) && !locked
       case Approved => locked && prerequisites && FullEvidence(a, bindings)
       case OtherStatus(_) => false
  }

  function NormalApproval(a: Approval): Approval {
    a.(recordId := OptStrip(a.recordId))
  }

  predicate EconomicsValid(e: Economics) {
    && DefinitionValid(e.definition)
    && ApprovalValid(e.approval, e.definition.locked, true, [DefinitionDigest(NormalTerms(e.definition.terms))])
  }

  function NormalEconomics(e: Economics): Economics {
    Economics(NormalDefinition(e.definition), NormalApproval(e.approval))
  }

  predicate SupplyValid(d: Definition, locked: bool, accounts: seq<Allocation>) {
    && (accounts != [] ==> d.terms.supply.Some?)
    && (locked ==> d.locked && accounts != [] && d.terms.supply == Some(Total(accounts)))
  }

  /** The allocation approval against normal forms. */
  predicate AllocationApprovalValid(d: Definition, locked: bool, accounts: seq<Allocation>, a: Approval) {
    ApprovalValid(a, locked, d.locked && accounts != [] && Canonical(Addresses(accounts)),
                  [DefinitionDigest(d.terms), AllocationsDigest(accounts)])
  }

  predicate AllocationsValid(d: Definition, a: Allocations) {
    && AccountsValid(a.accounts)
    && SupplyValid(d, a.locked, NormalAccounts(a.accounts))
    && AllocationApprovalValid(d, a.locked, NormalAccounts(a.accounts), a.approval)
  }

  function NormalAllocations(a: Allocations): Allocations {
    Allocations(a.locked, NormalAccounts(a.accounts), NormalApproval(a.approval))
  }

  predicate CustodyApprovalValid(d: Definition, a: Allocations, c: Custody, approval: Approval) {
    ApprovalValid(approval, c.locked,
                  d.locked && a.locked && a.accounts != [] && Canonical(Addresses(a.accounts)) &&
                    Canonical(c.participants),
                  [DefinitionDigest(d.terms), AllocationsDigest(a.accounts), CustodyDigest(c)])
  }

  /** Custody and its approval, against normal forms of the rest. */
  predicate SafekeepingValid(d: Definition, a: Allocations, s: Safekeeping) {
    CustodyValid(s.custody) && CustodyApprovalValid(d, a, NormalCustody(s.custody), s.approval)
  }

  function NormalSafekeeping(s: Safekeeping): Safekeeping {
    Safekeeping(NormalCustody(s.custody), NormalApproval(s.approval))
  }

  predicate IsApproved(a: Approval) { a.status == Approved }

  /** The three gates that restate approvals. */
  predicate GatesMatch(b: Body) {
    && (NativeEconomicsLocked in b.passed <==> b.economics.definition.locked && IsApproved(b.economics.approval))
    && (DeterministicGenesisAllocations in b.passed <==> b.allocations.locked && IsApproved(b.allocations.approval))
    && (CustodyKeyCeremony in b.passed <==> b.safekeeping.custody.locked && IsApproved(b.safekeeping.approval))
  }

  // --------------------------------------------------------------- milestones

  const TARGET := 20261001

  /** The fixed milestones with their due dates, year by month by day. */
  function LockedMilestones(): seq<(string, int)> {
    [("native_economics_constitution", 20260807),
     ("deterministic_genesis_allocations", 20260821),
     ("custody_key_ceremony_rehearsal", 20260904),
     ("independent_security_review", 20260911),
     ("candidate_genesis_and_recovery", 20260918),
     ("production_slo_24h_soak_release_evidence", 20260925),
     ("governance_and_ceo_final_approval", TARGET)]
  }

  /** The gates behind each milestone. */
  function MilestoneGates(i: nat): set<Gate> {
    match i
    case 0 => {NativeEconomicsLocked}
    case 1 => {DeterministicGenesisAllocations}
    case 2 => {CustodyKeyCeremony}
    case 3 => {IndependentSecurityReview}
    case 4 => {DisasterRecoveryRehearsal}
    case 5 => {ProductionSloAnd24hSoak}
    case _ => {GovernanceReleaseAuthorization, CeoFinalApproval}
  }

  predicate MilestoneValid(i: nat, m: Milestone, passed: set<Gate>)
    requires i < |LockedMilestones()|
  {
    && (m.id, m.due) == LockedMilestones()[i]
    && !m.status.OtherProgress?
    && TextValid(m.owner, 100)
    && (m.status == Completed ==> MilestoneGates(i) <= passed)
  }

  predicate MilestonesValid(milestones: seq<Milestone>, passed: set<Gate>) {
    && |milestones| == |LockedMilestones()|
    && forall i | 0 <= i < |milestones| :: MilestoneValid(i, milestones[i], passed)
  }

  function NormalMilestones(milestones: seq<Milestone>): (r: seq<Milestone>)
    ensures |r| == |milestones|
    ensures forall i | 0 <= i < |r| :: r[i] == milestones[i].(owner := Strip(milestones[i].owner))
  {
    if milestones == [] then []
    else
      var last := milestones[|milestones| - 1];
      NormalMilestones(milestones[..|milestones| - 1]) + [last.(owner := Strip(last.owner))]
  }

  // --------------------------------------------------------------- whole plan

  predicate TermsClean(t: Terms) {
    OptClean(t.name) && OptClean(t.symbol)
  }

  predicate AccountsClean(accounts: seq<Allocation>) {
    forall i | 0 <= i < |accounts| :: Clean(accounts[i].category)
  }

  predicate BodyClean(b: Body) {
    && TermsClean(b.economics.definition.terms)
    && AccountsClean(b.allocations.accounts)
    && OptClean(b.economics.approval.recordId)
    && OptClean(b.allocations.approval.recordId)
    && OptClean(b.safekeeping.approval.recordId)
    && forall i | 0 <= i < |b.milestones| :: Clean(b.milestones[i].owner)
  }

  predicate SectionsValid(b: Body) {
    && EconomicsValid(b.economics)
    && AllocationsValid(NormalDefinition(b.economics.definition), b.allocations)
    && SafekeepingValid(NormalDefinition(b.economics.definition), NormalAllocations(b.allocations), b.safekeeping)
  }

  predicate PlanValid(raw: RawPlan) {
    && raw.header == PlanHeader
    && BodyClean(raw.body)
    && SectionsValid(raw.body)
    && GatesMatch(raw.body)
    && MilestonesValid(raw.body.milestones, raw.body.passed)
  }

  function NormalBody(b: Body): Body {
    Body(NormalEconomics(b.economics), NormalAllocations(b.allocations), NormalSafekeeping(b.safekeeping),
         b.passed, NormalMilestones(b.milestones))
  }

  function PlanOf(raw: RawPlan): Plan {
    Plan(NormalBody(raw.body), PlanDigest(raw))
  }

  // ----------------------------------------------------------------- blockers

  function RequiredGates(): seq<Gate> {
    [NativeEconomicsLocked, DeterministicGenesisAllocations, CustodyKeyCeremony, IndependentSecurityReview,
     DisasterRecoveryRehearsal, ProductionSloAnd24hSoak, GovernanceReleaseAuthorization, CeoFinalApproval]
  }

  function MissingGates(gates: seq<Gate>, passed: set<Gate>): seq<Gate> {
    if gates == [] then []
    else
      var last := gates[|gates| - 1];
      MissingGates(gates[..|gates| - 1], passed) + (if last in passed then [] else [last])
  }

  datatype Blocker =
    | DefinitionOpen
    | EconomicsUnapproved
    | AllocationsOpen
    | CustodyOpen
    | CustodyUnapproved
    | GateMissing(gate: Gate)

  function When(condition: bool, blocker: Blocker): seq<Blocker> {
    if condition then [blocker] else []
  }

  function GateBlockers(gates: seq<Gate>): (r: seq<Blocker>)
    ensures |r| == |gates| && forall i | 0 <= i < |r| :: r[i] == GateMissing(gates[i])
  {
    seq(|gates|, i requires 0 <= i < |gates| => GateMissing(gates[i]))
  }

  function ApprovalBlockers(b: Body): seq<Blocker> {
    When(!b.economics.definition.locked, DefinitionOpen)
    + When(!IsApproved(b.economics.approval), EconomicsUnapproved)
    + When(!b.allocations.locked, AllocationsOpen)
    + When(!b.safekeeping.custody.locked, CustodyOpen)
    + When(!IsApproved(b.safekeeping.approval), CustodyUnapproved)
  }

  function Blockers(p: Plan): seq<Blocker> {
    ApprovalBlockers(p.body) + GateBlockers(MissingGates(RequiredGates(), p.body.passed))
  }

  predicate Ready(p: Plan) {
    Blockers(p) == []
  }

  lemma {:induction false} MissingGatesAre(gates: seq<Gate>, passed: set<Gate>)
    ensures forall g :: g in MissingGates(gates, passed) <==> g in gates && g !in passed
  {
    if gates != [] {
      MissingGatesAre(gates[..|gates| - 1], passed);
      assert gates == gates[..|gates| - 1] + [gates[|gates| - 1]];
    }
  }

  lemma {:induction false} NothingMissing(gates: seq<Gate>, passed: set<Gate>)
    requires forall i | 0 <= i < |gates| :: gates[i] in passed
    ensures MissingGates(gates, passed) == []
  {
    if gates != [] { NothingMissing(gates[..|gates| - 1], passed); }
  }

  lemma EveryGateIsRequired(g: Gate)
    ensures g in RequiredGates()
  {
    var gates := RequiredGates();
    assert gates[0] == NativeEconomicsLocked && gates[1] == DeterministicGenesisAllocations &&
           gates[2] == CustodyKeyCeremony
        && gates[3] == IndependentSecurityReview && gates[4] == DisasterRecoveryRehearsal
        && gates[5] == ProductionSloAnd24hSoak && gates[6] == GovernanceReleaseAuthorization &&
           gates[7] == CeoFinalApproval;
  }

  lemma NothingMissingIff(passed: set<Gate>)
    ensures MissingGates(RequiredGates(), passed) == [] <==> forall g: Gate :: g in passed
  {
    var missing := MissingGates(RequiredGates(), passed);
    if missing == [] {
      forall g: Gate
        ensures g in passed
      {
        MissingGatesAre(RequiredGates(), passed);
        EveryGateIsRequired(g);
        assert g !in missing;
      }
    }
    if forall g: Gate :: g in passed { NothingMissing(RequiredGates(), passed); }
  }

  /** A plan whose gates match its approvals is ready exactly when every gate has passed: the
      approvals behind the first three gates leave nothing else to block. */
  lemma ReadyIff(p: Plan)
    requires GatesMatch(p.body)
    ensures Ready(p) <==> forall g: Gate :: g in p.body.passed
  {
    NothingMissingIff(p.body.passed);
    assert |Blockers(p)| == |ApprovalBlockers(p.body)| + |MissingGates(RequiredGates(), p.body.passed)|;
    if forall g: Gate :: g in p.body.passed {
      assert NativeEconomicsLocked in p.body.passed && DeterministicGenesisAllocations in p.body.passed
          && CustodyKeyCeremony in p.body.passed;
    }
  }

  lemma GatesMatchNormal(b: Body)
    requires GatesMatch(b)
    ensures GatesMatch(NormalBody(b)) && NormalBody(b).passed == b.passed
  {
  }

  // ----------------------------------------------------------------- calendar

  datatype Schedule = ReadyForCeremony | TargetMissed | AtRisk | OnTrack

  function Overdue(milestones: seq<Milestone>, asOf: int): seq<string> {
    if milestones == [] then []
    else
      var last := milestones[|milestones| - 1];
      Overdue(milestones[..|milestones| - 1], asOf) +
        (if last.status != Completed && asOf > last.due then [last.id] else [])
  }

  function ScheduleState(p: Plan, asOf: int): Schedule {
    if Ready(p) then ReadyForCeremony
    else if asOf > TARGET then TargetMissed
    else if Overdue(p.body.milestones, asOf) != [] then AtRisk
    else OnTrack
  }

  lemma {:induction false} OverdueIff(milestones: seq<Milestone>, asOf: int)
    ensures Overdue(milestones, asOf) == [] <==>
            forall i | 0 <= i < |milestones| :: milestones[i].status == Completed || asOf <= milestones[i].due
  {
    if milestones != [] {
      var n := |milestones| - 1;
      OverdueIff(milestones[..n], asOf);
      assert forall i | 0 <= i < n :: milestones[..n][i] == milestones[i];
    }
  }

  lemma EveryGateHasAMilestone(g: Gate) returns (i: nat)
    ensures i < |LockedMilestones()| && g in MilestoneGates(i)
  {
    i := match g
      case NativeEconomicsLocked => 0
      case DeterministicGenesisAllocations => 1
      case CustodyKeyCeremony => 2
      case IndependentSecurityReview => 3
      case DisasterRecoveryRehearsal => 4
      case ProductionSloAnd24hSoak => 5
      case GovernanceReleaseAuthorization => 6
      case CeoFinalApproval => 6;
  }

  /** A plan whose milestones are all completed is ready. */
  lemma CompletedMeansReady(p: Plan)
    requires GatesMatch(p.body) && MilestonesValid(p.body.milestones, p.body.passed)
    requires forall i | 0 <= i < |p.body.milestones| :: p.body.milestones[i].status == Completed
    ensures Ready(p)
  {
    forall g: Gate
      ensures g in p.body.passed
    {
      var i := EveryGateHasAMilestone(g);
      assert MilestoneValid(i, p.body.milestones[i], p.body.passed);
    }
    ReadyIff(p);
  }

  lemma DueByTarget(i: nat)
    requires i < |LockedMilestones()|
    ensures LockedMilestones()[i].1 <= TARGET
  {
  }

  lemma NormalMilestonesValid(milestones: seq<Milestone>, passed: set<Gate>)
    requires MilestonesValid(milestones, passed)
    ensures MilestonesValid(NormalMilestones(milestones), passed)
  {
    forall i | 0 <= i < |milestones|
      ensures MilestoneValid(i, NormalMilestones(milestones)[i], passed)
    {
      assert MilestoneValid(i, milestones[i], passed);
      StripTwice(milestones[i].owner);
    }
  }

  lemma NotReadyIsOverdue(p: Plan, asOf: int)
    requires GatesMatch(p.body) && MilestonesValid(p.body.milestones, p.body.passed)
    requires asOf > TARGET && !Ready(p)
    ensures Overdue(p.body.milestones, asOf) != []
  {
    if Overdue(p.body.milestones, asOf) == [] {
      OverdueIff(p.body.milestones, asOf);
      forall i | 0 <= i < |p.body.milestones|
        ensures p.body.milestones[i].status == Completed
      {
        assert MilestoneValid(i, p.body.milestones[i], p.body.passed);
        DueByTarget(i);
      }
      CompletedMeansReady(p);
    }
  }

  /** Past the target date a valid plan that is not ready always has an overdue milestone to
      name, and a plan reported on track has none. */
  lemma MissedTargetIsOverdue(raw: RawPlan, asOf: int)
    requires PlanValid(raw)
    ensures var (state, overdue) := (ScheduleState(PlanOf(raw), asOf), Overdue(PlanOf(raw).body.milestones, asOf));
            && (state == TargetMissed || state == AtRisk ==> overdue != [])
            && (state == OnTrack ==> overdue == [] && asOf <= TARGET)
  {
    var p := PlanOf(raw);
    GatesMatchNormal(raw.body);
    NormalMilestonesValid(raw.body.milestones, raw.body.passed);
    if asOf > TARGET && !Ready(p) { NotReadyIsOverdue(p, asOf); }
  }
}
