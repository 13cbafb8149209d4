/** The three decisions that fill in a Genesis plan: economics, then allocations, then custody. */
module GenesisDecisions {
  import opened GenesisCandidate
  import opened GenesisPlan
  import opened GenesisRecords
  import opened Prelude

  // ---------------------------------------------------------------- decisions

  /** What every decision carries: its identifier, its time, and the digest of its document. */
  datatype Record = Record(id: string, at: Stamp, digest: Digest)

  datatype EconomicsDecision = EconomicsDecision(record: Record, terms: Terms)

  datatype AllocationDecision = AllocationDecision(record: Record, definition: Digest, accounts: seq<Allocation>,
                                                   total: int)

  datatype CustodyDecision = CustodyDecision(record: Record, definition: Digest, allocations: Digest, custody: Custody)

  /** The document of a decision before it is checked. */
  datatype RawRecord = RawRecord(header: Header, id: string, at: Stamp, evidence: Digest)

  predicate RecordAccepted(r: RawRecord) {
    r.header == DecisionHeader && Clean(r.id) && TextValid(r.id, 200) && r.at.utc && IsDigest(r.evidence)
  }

  function RecordOf(r: RawRecord, approves: seq<Digest>): Record {
    Record(Strip(r.id), r.at, RecordDigest(r.id, r.at, r.evidence, approves))
  }

  function EvaluateEconomics(r: RawRecord, d: Definition): Option<EconomicsDecision> {
    if !RecordAccepted(r) || !TermsClean(d.terms) || !DefinitionValid(d) || !d.locked then None
    else Some(EconomicsDecision(RecordOf(r, [DefinitionDigest(d.terms)]), NormalTerms(d.terms)))
  }

  function EvaluateAllocations(r: RawRecord, definition: Digest, accounts: seq<Allocation>, total: int)
    : Option<AllocationDecision>
  {
    var normal := NormalAccounts(accounts);
    if !RecordAccepted(r) || !AccountsClean(accounts) || !IsDigest(definition) || !AccountsValid(accounts) then None
    else if accounts == [] || !Canonical(Addresses(normal)) || total <= 0 || Total(normal) != total then None
    else Some(AllocationDecision(RecordOf(r, [definition, AllocationsDigest(accounts)]), definition, normal, total))
  }

  function EvaluateCustody(r: RawRecord, definition: Digest, allocations: Digest, c: Custody): Option<CustodyDecision> {
    if !RecordAccepted(r) || !IsDigest(definition) || !IsDigest(allocations) || !CustodyValid(c) then None
    else if !c.locked || !Canonical(NormalCustody(c).participants) then None
    else Some(CustodyDecision(RecordOf(r, [definition, allocations, CustodyDigest(c)]), definition, allocations,
                              NormalCustody(c)))
  }

  predicate RecordSound(r: Record) {
    Clean(r.id) && TextValid(r.id, 200) && Strip(r.id) == r.id && r.at.utc && IsDigest(r.digest)
  }

  predicate EconomicsSound(d: EconomicsDecision) {
    && RecordSound(d.record) && TermsClean(d.terms)
    && TermsValid(d.terms) && NormalTerms(d.terms) == d.terms && Complete(d.terms)
  }

  predicate AllocationsSound(d: AllocationDecision) {
    && RecordSound(d.record) && AccountsClean(d.accounts) && IsDigest(d.definition)
    && AccountsValid(d.accounts) && NormalAccounts(d.accounts) == d.accounts
    && d.accounts != [] && Canonical(Addresses(d.accounts)) && Total(d.accounts) == d.total
  }

  predicate CustodySound(d: CustodyDecision) {
    && RecordSound(d.record) && IsDigest(d.definition) && IsDigest(d.allocations)
    && CustodyValid(d.custody) && NormalCustody(d.custody) == d.custody
    && d.custody.locked && Canonical(d.custody.participants)
  }

  lemma RecordIsSound(r: RawRecord, approves: seq<Digest>)
    requires RecordAccepted(r)
    ensures RecordSound(RecordOf(r, approves))
  {
    StripTwice(r.id);
    StripIsClean(r.id);
  }

  /** A decision that passes its own check is in normal form. */
  lemma EvaluatedEconomicsIsSound(r: RawRecord, d: Definition)
    requires EvaluateEconomics(r, d).Some?
    ensures EconomicsSound(EvaluateEconomics(r, d).value)
  {
    RecordIsSound(r, [DefinitionDigest(d.terms)]);
    TermsTwice(d.terms);
  }

  lemma EvaluatedAllocationsIsSound(r: RawRecord, definition: Digest, accounts: seq<Allocation>, total: int)
    requires EvaluateAllocations(r, definition, accounts, total).Some?
    ensures AllocationsSound(EvaluateAllocations(r, definition, accounts, total).value)
  {
    RecordIsSound(r, [definition, AllocationsDigest(accounts)]);
    AccountsTwice(accounts);
    AccountsStayClean(accounts);
  }

  lemma EvaluatedCustodyIsSound(r: RawRecord, definition: Digest, allocations: Digest, c: Custody)
    requires EvaluateCustody(r, definition, allocations, c).Some?
    ensures CustodySound(EvaluateCustody(r, definition, allocations, c).value)
  {
    RecordIsSound(r, [definition, allocations, CustodyDigest(c)]);
    CustodyTwice(c);
  }

  // ------------------------------------------------------------------ updates

  function Somes(ds: seq<Digest>): (r: seq<Option<Digest>>)
    ensures |r| == |ds| && forall i | 0 <= i < |r| :: r[i] == Some(ds[i])
  {
    seq(|ds|, i requires 0 <= i < |ds| => Some(ds[i]))
  }

  function ApprovalFrom(r: Record, bindings: seq<Digest>): Approval {
    Approval(Approved, Some(r.id), Somes(bindings), Some(r.digest), Some(r.at))
  }

  function EconomicsApproval(d: EconomicsDecision): Approval {
    ApprovalFrom(d.record, [DefinitionDigest(d.terms)])
  }

  function AllocationApproval(d: AllocationDecision): Approval {
    ApprovalFrom(d.record, [d.definition, AllocationsDigest(d.accounts)])
  }

  function CustodyApproval(d: CustodyDecision): Approval {
    ApprovalFrom(d.record, [d.definition, d.allocations, CustodyDigest(d.custody)])
  }

  /** The first milestone with the name becomes completed. */
  function MarkCompleted(milestones: seq<Milestone>, id: string): (r: seq<Milestone>)
    ensures |r| == |milestones|
  {
    if milestones == [] then []
    else if milestones[0].id == id then [milestones[0].(status := Completed)] + milestones[1..]
    else [milestones[0]] + MarkCompleted(milestones[1..], id)
  }

  function WithEconomics(raw: RawPlan, d: EconomicsDecision): RawPlan {
    raw.(body := raw.body.(
      economics := Economics(Definition(true, d.terms), EconomicsApproval(d)),
      passed := raw.body.passed + {NativeEconomicsLocked},
      milestones := MarkCompleted(raw.body.milestones, LockedMilestones()[0].0)))
  }

  function WithAllocations(raw: RawPlan, d: AllocationDecision): RawPlan {
    raw.(body := raw.body.(
      allocations := Allocations(true, d.accounts, AllocationApproval(d)),
      passed := raw.body.passed + {DeterministicGenesisAllocations},
      milestones := MarkCompleted(raw.body.milestones, LockedMilestones()[1].0)))
  }

  function WithCustody(raw: RawPlan, d: CustodyDecision): RawPlan {
    raw.(body := raw.body.(
      safekeeping := Safekeeping(d.custody.(locked := true), CustodyApproval(d)),
      passed := raw.body.passed + {CustodyKeyCeremony},
      milestones := MarkCompleted(raw.body.milestones, LockedMilestones()[2].0)))
  }

  predicate Settles<T(==)>(existing: Option<T>, decided: Option<T>) {
    existing.Some? ==> existing == decided
  }

  /** No term that is already filled in changes, and an approval that is already there is this
      decision's. */
  predicate EconomicsFits(b: Body, d: EconomicsDecision) {
    var t := b.economics.definition.terms;
    && Settles(t.name, d.terms.name) && Settles(t.symbol, d.terms.symbol)
    && Settles(t.decimals, d.terms.decimals) && Settles(t.supply, d.terms.supply)
    && Settles(t.supplyModel, d.terms.supplyModel) && Settles(t.issuance, d.terms.issuance)
    && Settles(t.feeModel, d.terms.feeModel)
    && (IsApproved(b.economics.approval) ==> b.economics.approval == EconomicsApproval(d))
  }

  predicate AllocationsFit(b: Body, d: AllocationDecision) {
    && b.economics.definition.locked && IsApproved(b.economics.approval)
    && d.definition == DefinitionDigest(b.economics.definition.terms)
    && Some(d.total) == b.economics.definition.terms.supply
    && (b.allocations.accounts != [] ==> b.allocations.accounts == d.accounts)
    && (IsApproved(b.allocations.approval) ==> b.allocations.approval == AllocationApproval(d))
  }

  predicate Prefilled(c: Custody) {
    c.locked || c.threshold.Some? || c.participants != [] || c.evidence.Some?
  }

  predicate CustodyFits(b: Body, d: CustodyDecision) {
    var c := b.safekeeping.custody;
    && b.economics.definition.locked && IsApproved(b.economics.approval)
    && b.allocations.locked && IsApproved(b.allocations.approval)
    && d.definition == DefinitionDigest(b.economics.definition.terms)
    && d.allocations == AllocationsDigest(b.allocations.accounts)
    && (Prefilled(c) ==>
          && c.threshold == d.custody.threshold && c.participants == d.custody.participants
          && c.evidence == d.custody.evidence)
    && (IsApproved(b.safekeeping.approval) ==> b.safekeeping.approval == CustodyApproval(d))
  }

  /** Applying a decision: both the plan and what becomes of it must be valid. */
  function ApplyEconomics(raw: RawPlan, d: EconomicsDecision): Option<RawPlan> {
    if PlanValid(raw) && EconomicsFits(NormalBody(raw.body), d) && PlanValid(WithEconomics(raw, d)) then
      Some(WithEconomics(raw, d))
    else None
  }

  function ApplyAllocations(raw: RawPlan, d: AllocationDecision): Option<RawPlan> {
    if PlanValid(raw) && AllocationsFit(NormalBody(raw.body), d) && PlanValid(WithAllocations(raw, d)) then
      Some(WithAllocations(raw, d))
    else None
  }

  function ApplyCustody(raw: RawPlan, d: CustodyDecision): Option<RawPlan> {
    if PlanValid(raw) && CustodyFits(NormalBody(raw.body), d) && PlanValid(WithCustody(raw, d)) then
      Some(WithCustody(raw, d))
    else None
  }

  // ------------------------------------------------- the last check never fails

  lemma {:induction false} MarkedAt(milestones: seq<Milestone>, id: string, k: nat)
    requires k < |milestones| && milestones[k].id == id && forall i | 0 <= i < k :: milestones[i].id != id
    ensures MarkCompleted(milestones, id) == milestones[k := milestones[k].(status := Completed)]
  {
    if k > 0 {
      MarkedAt(milestones[1..], id, k - 1);
      assert milestones == [milestones[0]] + milestones[1..];
    }
  }

  lemma MilestoneNamesDiffer(k: nat, i: nat)
    requires i < k < 3
    ensures LockedMilestones()[i].0 != LockedMilestones()[k].0
  {
    assert LockedMilestones()[0].0[0] == 'n' && LockedMilestones()[1].0[0] == 'd' && LockedMilestones()[2].0[0] == 'c';
  }

  /** One gate more and its milestone completed keep the milestones valid. */
  lemma StillOnSchedule(milestones: seq<Milestone>, passed: set<Gate>, k: nat, gate: Gate)
    requires MilestonesValid(milestones, passed) && k < 3 && MilestoneGates(k) == {gate}
    ensures var id := LockedMilestones()[k].0;
            && MilestonesValid(MarkCompleted(milestones, id), passed + {gate})
            && MarkCompleted(milestones, id) == milestones[k := milestones[k].(status := Completed)]
  {
    var id := LockedMilestones()[k].0;
    forall i | 0 <= i < |milestones|
      ensures MilestoneValid(i, milestones[i], passed) && milestones[i].id == LockedMilestones()[i].0
    {
    }
    forall i | 0 <= i < k
      ensures milestones[i].id != id
    {
      MilestoneNamesDiffer(k, i);
    }
    MarkedAt(milestones, id, k);
    forall i | 0 <= i < |milestones|
      ensures MilestoneValid(i, MarkCompleted(milestones, id)[i], passed + {gate})
    {
      assert MilestoneValid(i, milestones[i], passed);
    }
  }

  lemma ApprovalFromIsValid(r: Record, bindings: seq<Digest>)
    requires RecordSound(r) && forall i | 0 <= i < |bindings| :: IsDigest(bindings[i])
    ensures ApprovalValid(ApprovalFrom(r, bindings), true, true, bindings)
    ensures NormalApproval(ApprovalFrom(r, bindings)) == ApprovalFrom(r, bindings)
  {
  }

  /** Terms that are complete and fit are the decision's. */
  lemma LockedTermsAgree(b: Body, d: EconomicsDecision)
    requires EconomicsFits(b, d) && Complete(b.economics.definition.terms)
    ensures b.economics.definition.terms == d.terms
  {
  }

  lemma EconomicsSections(b: Body, d: EconomicsDecision)
    requires SectionsValid(b) && EconomicsSound(d) && EconomicsFits(NormalBody(b), d)
    ensures SectionsValid(b.(economics := Economics(Definition(true, d.terms), EconomicsApproval(d))))
  {
    ApprovalFromIsValid(d.record, [DefinitionDigest(d.terms)]);
    if b.economics.definition.locked { LockedTermsAgree(NormalBody(b), d); }
  }

  lemma NewAllocationsAreValid(def: Definition, d: AllocationDecision)
    requires AllocationsSound(d) && def.locked
    requires d.definition == DefinitionDigest(def.terms) && Some(d.total) == def.terms.supply
    ensures AllocationsValid(def, Allocations(true, d.accounts, AllocationApproval(d)))
  {
    ApprovalFromIsValid(d.record, [d.definition, AllocationsDigest(d.accounts)]);
  }

  /** A custody approval looks at the allocations only where it approves them. */
  lemma CustodyApprovalKept(def: Definition, a: Allocations, a': Allocations, c: Custody, approval: Approval)
    requires CustodyApprovalValid(def, a, c, approval)
    requires a.locked && a.accounts != [] ==> a'.locked && a'.accounts == a.accounts
    ensures CustodyApprovalValid(def, a', c, approval)
  {
  }

  lemma AllocationSections(b: Body, d: AllocationDecision)
    requires SectionsValid(b) && AllocationsSound(d) && AllocationsFit(NormalBody(b), d)
    ensures SectionsValid(b.(allocations := Allocations(true, d.accounts, AllocationApproval(d))))
  {
    var (def, now) := (NormalDefinition(b.economics.definition), Allocations(true, d.accounts, AllocationApproval(d)));
    NewAllocationsAreValid(def, d);
    CustodyApprovalKept(def, NormalAllocations(b.allocations), NormalAllocations(now),
                        NormalCustody(b.safekeeping.custody), b.safekeeping.approval);
  }

  lemma NewCustodyIsValid(def: Definition, a: Allocations, d: CustodyDecision)
    requires CustodySound(d) && def.locked && a.locked && a.accounts != [] && Canonical(Addresses(a.accounts))
    requires d.definition == DefinitionDigest(def.terms) && d.allocations == AllocationsDigest(a.accounts)
    ensures SafekeepingValid(def, a, Safekeeping(d.custody, CustodyApproval(d)))
  {
    ApprovalFromIsValid(d.record, [d.definition, d.allocations, CustodyDigest(d.custody)]);
  }

  lemma CustodySections(b: Body, d: CustodyDecision)
    requires SectionsValid(b) && CustodySound(d) && CustodyFits(NormalBody(b), d)
    ensures SectionsValid(b.(safekeeping := Safekeeping(d.custody, CustodyApproval(d))))
  {
    NewCustodyIsValid(NormalDefinition(b.economics.definition), NormalAllocations(b.allocations), d);
  }

  lemma EconomicsParts(raw: RawPlan, d: EconomicsDecision)
    requires BodyClean(raw.body) && GatesMatch(raw.body) && MilestonesValid(raw.body.milestones, raw.body.passed)
    requires EconomicsSound(d)
    ensures var b := WithEconomics(raw, d).body;
            BodyClean(b) && GatesMatch(b) && MilestonesValid(b.milestones, b.passed)
  {
    StillOnSchedule(raw.body.milestones, raw.body.passed, 0, NativeEconomicsLocked);
  }

  /** A sound decision is applied exactly when the plan is valid and the decision fits it: the
      final check of the updated plan never refuses. */
  lemma EconomicsAppliesIff(raw: RawPlan, d: EconomicsDecision)
    requires EconomicsSound(d)
    ensures ApplyEconomics(raw, d).Some? <==> PlanValid(raw) && EconomicsFits(NormalBody(raw.body), d)
  {
    if PlanValid(raw) && EconomicsFits(NormalBody(raw.body), d) {
      EconomicsParts(raw, d);
      EconomicsSections(raw.body, d);
      var (b, b') := (raw.body, WithEconomics(raw, d).body);
      SectionsOnly(b.(economics := b'.economics), b');
    }
  }

  lemma AllocationParts(raw: RawPlan, d: AllocationDecision)
    requires BodyClean(raw.body) && GatesMatch(raw.body) && MilestonesValid(raw.body.milestones, raw.body.passed)
    requires AllocationsSound(d)
    ensures var b := WithAllocations(raw, d).body;
            BodyClean(b) && GatesMatch(b) && MilestonesValid(b.milestones, b.passed)
  {
    StillOnSchedule(raw.body.milestones, raw.body.passed, 1, DeterministicGenesisAllocations);
  }

  lemma AllocationsApplyIff(raw: RawPlan, d: AllocationDecision)
    requires AllocationsSound(d)
    ensures ApplyAllocations(raw, d).Some? <==> PlanValid(raw) && AllocationsFit(NormalBody(raw.body), d)
  {
    if PlanValid(raw) && AllocationsFit(NormalBody(raw.body), d) {
      AllocationParts(raw, d);
      AllocationSections(raw.body, d);
      var (b, b') := (raw.body, WithAllocations(raw, d).body);
      SectionsOnly(b.(allocations := b'.allocations), b');
    }
  }

  lemma CustodyParts(raw: RawPlan, d: CustodyDecision)
    requires BodyClean(raw.body) && GatesMatch(raw.body) && MilestonesValid(raw.body.milestones, raw.body.passed)
    requires CustodySound(d)
    ensures var b := WithCustody(raw, d).body;
            BodyClean(b) && GatesMatch(b) && MilestonesValid(b.milestones, b.passed)
  {
    StillOnSchedule(raw.body.milestones, raw.body.passed, 2, CustodyKeyCeremony);
  }

  lemma CustodyAppliesIff(raw: RawPlan, d: CustodyDecision)
    requires CustodySound(d)
    ensures ApplyCustody(raw, d).Some? <==> PlanValid(raw) && CustodyFits(NormalBody(raw.body), d)
  {
    if PlanValid(raw) && CustodyFits(NormalBody(raw.body), d) {
      CustodyParts(raw, d);
      CustodySections(raw.body, d);
      var (b, b') := (raw.body, WithCustody(raw, d).body);
      SectionsOnly(b.(safekeeping := b'.safekeeping), b');
    }
  }

  /** Gates and milestones are no part of the sections. */
  lemma SectionsOnly(b: Body, b': Body)
    requires SectionsValid(b)
    requires b.economics == b'.economics && b.allocations == b'.allocations && b.safekeeping == b'.safekeeping
    ensures SectionsValid(b')
  {
  }

  // -------------------------------------------------------------- idempotence

  lemma MarkedTwice(milestones: seq<Milestone>, passed: set<Gate>, k: nat, gate: Gate)
    requires MilestonesValid(milestones, passed) && k < 3 && MilestoneGates(k) == {gate}
    ensures var (id, once) := (LockedMilestones()[k].0, MarkCompleted(milestones, LockedMilestones()[k].0));
            MarkCompleted(once, id) == once
  {
    StillOnSchedule(milestones, passed, k, gate);
    StillOnSchedule(MarkCompleted(milestones, LockedMilestones()[k].0), passed + {gate}, k, gate);
  }

  /** Applying the same decision again changes nothing. */
  lemma EconomicsIdempotent(raw: RawPlan, d: EconomicsDecision)
    requires EconomicsSound(d) && ApplyEconomics(raw, d).Some?
    ensures ApplyEconomics(ApplyEconomics(raw, d).value, d) == ApplyEconomics(raw, d)
  {
    MarkedTwice(raw.body.milestones, raw.body.passed, 0, NativeEconomicsLocked);
    ApprovalFromIsValid(d.record, [DefinitionDigest(d.terms)]);
    assert WithEconomics(WithEconomics(raw, d), d) == WithEconomics(raw, d);
    assert EconomicsFits(NormalBody(WithEconomics(raw, d).body), d);
  }

  lemma AllocationsIdempotent(raw: RawPlan, d: AllocationDecision)
    requires AllocationsSound(d) && ApplyAllocations(raw, d).Some?
    ensures ApplyAllocations(ApplyAllocations(raw, d).value, d) == ApplyAllocations(raw, d)
  {
    MarkedTwice(raw.body.milestones, raw.body.passed, 1, DeterministicGenesisAllocations);
    ApprovalFromIsValid(d.record, [d.definition, AllocationsDigest(d.accounts)]);
    assert WithAllocations(WithAllocations(raw, d), d) == WithAllocations(raw, d);
    assert AllocationsFit(NormalBody(WithAllocations(raw, d).body), d);
  }

  lemma CustodyIdempotent(raw: RawPlan, d: CustodyDecision)
    requires CustodySound(d) && ApplyCustody(raw, d).Some?
    ensures ApplyCustody(ApplyCustody(raw, d).value, d) == ApplyCustody(raw, d)
  {
    MarkedTwice(raw.body.milestones, raw.body.passed, 2, CustodyKeyCeremony);
    ApprovalFromIsValid(d.record, [d.definition, d.allocations, CustodyDigest(d.custody)]);
    assert WithCustody(WithCustody(raw, d), d) == WithCustody(raw, d);
    assert CustodyFits(NormalBody(WithCustody(raw, d).body), d);
  }

  // ------------------------------------------------------------- the pipeline

  /** Only the milestone in question may differ, and only in its status. */
  predicate SameButMilestone(before: seq<Milestone>, after: seq<Milestone>, k: nat) {
    k < |before| && after == before[k := before[k].(status := Completed)]
  }

  /** Each decision changes its own section, gate and milestone and nothing else. */
  lemma DecisionsStayInTheirSection(raw: RawPlan, e: EconomicsDecision, a: AllocationDecision, c: CustodyDecision)
    requires PlanValid(raw)
    ensures var b := raw.body;
            && (var n := WithEconomics(raw, e).body;
                (n.allocations, n.safekeeping) == (b.allocations, b.safekeeping)
                && n.passed - b.passed <= {NativeEconomicsLocked} && b.passed <= n.passed
                && SameButMilestone(b.milestones, n.milestones, 0))
            && (var n := WithAllocations(raw, a).body;
                (n.economics, n.safekeeping) == (b.economics, b.safekeeping)
                && n.passed - b.passed <= {DeterministicGenesisAllocations} && b.passed <= n.passed
                && SameButMilestone(b.milestones, n.milestones, 1))
            && (var n := WithCustody(raw, c).body;
                (n.economics, n.allocations) == (b.economics, b.allocations)
                && n.passed - b.passed <= {CustodyKeyCeremony} && b.passed <= n.passed
                && SameButMilestone(b.milestones, n.milestones, 2))
  {
    StillOnSchedule(raw.body.milestones, raw.body.passed, 0, NativeEconomicsLocked);
    StillOnSchedule(raw.body.milestones, raw.body.passed, 1, DeterministicGenesisAllocations);
    StillOnSchedule(raw.body.milestones, raw.body.passed, 2, CustodyKeyCeremony);
  }

  lemma AllocationsNeedEconomics(b: Body, d: AllocationDecision)
    requires GatesMatch(b) && AllocationsFit(NormalBody(b), d)
    ensures NativeEconomicsLocked in b.passed
  {
  }

  lemma CustodyNeedsBoth(b: Body, d: CustodyDecision)
    requires GatesMatch(b) && CustodyFits(NormalBody(b), d)
    ensures NativeEconomicsLocked in b.passed && DeterministicGenesisAllocations in b.passed
  {
  }

  /** Allocations wait for economics, and custody for both. */
  lemma DecisionsInOrder(raw: RawPlan, a: AllocationDecision, c: CustodyDecision)
    ensures ApplyAllocations(raw, a).Some? ==> NativeEconomicsLocked in raw.body.passed
    ensures ApplyCustody(raw, c).Some? ==>
              NativeEconomicsLocked in raw.body.passed && DeterministicGenesisAllocations in raw.body.passed
  {
    if PlanValid(raw) && AllocationsFit(NormalBody(raw.body), a) { AllocationsNeedEconomics(raw.body, a); }
    if PlanValid(raw) && CustodyFits(NormalBody(raw.body), c) { CustodyNeedsBoth(raw.body, c); }
  }

  /** The plan that the three decisions make of one, one after another. */
  function ApplyAll(raw: RawPlan, e: EconomicsDecision, a: AllocationDecision, c: CustodyDecision): Option<RawPlan> {
    match ApplyEconomics(raw, e)
    case None => None
    case Some(first) =>
      match ApplyAllocations(first, a)
      case None => None
      case Some(second) => ApplyCustody(second, c)
  }

  lemma MissingAre(passed: set<Gate>)
    ensures forall g: Gate :: g in MissingGates(RequiredGates(), passed) <==> g !in passed
  {
    MissingGatesAre(RequiredGates(), passed);
    forall g: Gate
      ensures g in RequiredGates()
    {
      EveryGateIsRequired(g);
    }
  }

  lemma PassedGatesLeaveNoApproval(b: Body)
    requires GatesMatch(b) && {NativeEconomicsLocked, DeterministicGenesisAllocations, CustodyKeyCeremony} <= b.passed
    ensures ApprovalBlockers(NormalBody(b)) == []
  {
    assert NativeEconomicsLocked in b.passed && DeterministicGenesisAllocations in b.passed &&
           CustodyKeyCeremony in b.passed;
  }

  lemma ApplyAllIs(raw: RawPlan, e: EconomicsDecision, a: AllocationDecision, c: CustodyDecision)
    requires ApplyAll(raw, e, a, c).Some?
    ensures ApplyAll(raw, e, a, c) == Some(WithCustody(WithAllocations(WithEconomics(raw, e), a), c))
    ensures PlanValid(ApplyAll(raw, e, a, c).value)
  {
  }

  lemma AllThreePassed(raw: RawPlan, e: EconomicsDecision, a: AllocationDecision, c: CustodyDecision)
    ensures WithCustody(WithAllocations(WithEconomics(raw, e), a), c).body.passed ==
            raw.body.passed + {NativeEconomicsLocked, DeterministicGenesisAllocations, CustodyKeyCeremony}
  {
  }

  /** After all three decisions only other gates can block the ceremony, and those that do are
      exactly the ones that had not passed before. */
  lemma OnlyOtherGatesBlock(raw: RawPlan, e: EconomicsDecision, a: AllocationDecision, c: CustodyDecision)
    requires ApplyAll(raw, e, a, c).Some?
    ensures var (p, decided) := (PlanOf(ApplyAll(raw, e, a, c).value),
                                 {NativeEconomicsLocked, DeterministicGenesisAllocations, CustodyKeyCeremony});
            && ApprovalBlockers(p.body) == []
            && forall g :: g in MissingGates(RequiredGates(), p.body.passed) <==> g !in raw.body.passed + decided
  {
    ApplyAllIs(raw, e, a, c);
    AllThreePassed(raw, e, a, c);
    ThreeGatesPassed(ApplyAll(raw, e, a, c).value, raw.body.passed);
  }

  lemma ThreeGatesPassed(last: RawPlan, before: set<Gate>)
    requires GatesMatch(last.body)
    requires last.body.passed == before + {NativeEconomicsLocked, DeterministicGenesisAllocations, CustodyKeyCeremony}
    ensures ApprovalBlockers(PlanOf(last).body) == []
    ensures forall g :: g in MissingGates(RequiredGates(), PlanOf(last).body.passed) <==>
                        g !in before + {NativeEconomicsLocked, DeterministicGenesisAllocations, CustodyKeyCeremony}
  {
    PassedGatesLeaveNoApproval(last.body);
    MissingAre(last.body.passed);
  }

  lemma DecidedNormalForm(raw: RawPlan, e: EconomicsDecision, a: AllocationDecision, c: CustodyDecision)
    requires EconomicsSound(e) && AllocationsSound(a) && CustodySound(c)
    ensures var b := NormalBody(WithCustody(WithAllocations(WithEconomics(raw, e), a), c).body);
            && b.economics.definition == Definition(true, e.terms)
            && b.allocations.accounts == a.accounts
            && b.safekeeping.custody == c.custody
  {
  }

  /** From decisions to Genesis: once the other five gates have passed, the decided plan compiles
      to a candidate that the bound checker accepts and that holds exactly what was decided. */
  lemma DecidedPlanCompiles(raw: RawPlan, e: EconomicsDecision, a: AllocationDecision, c: CustodyDecision)
    requires EconomicsSound(e) && AllocationsSound(a) && CustodySound(c)
    requires ApplyAll(raw, e, a, c).Some? && forall g: Gate :: g in ApplyAll(raw, e, a, c).value.body.passed
    ensures var p := PlanOf(ApplyAll(raw, e, a, c).value);
            && Ready(p) && Accepts(Compile(p), Some(p))
            && Compile(p).economics.definition == Definition(true, e.terms)
            && Compile(p).accounts == a.accounts
            && Compile(p).safekeeping.custody == c.custody
  {
    var last := ApplyAll(raw, e, a, c).value;
    ApplyAllIs(raw, e, a, c);
    GatesMatchNormal(last.body);
    ReadyIff(PlanOf(last));
    AcceptsIffCompiled(last, Compile(PlanOf(last)));
    ReadyIsCanonical(last);
    DecidedNormalForm(raw, e, a, c);
  }
}
