/** The Genesis candidate: the compiler from an approved plan, and the independent checker. */
module GenesisCandidate {
  import opened GenesisPlan
  import opened GenesisRecords
  import opened Prelude

  datatype RawCandidate = RawCandidate(
    header: Header,
    economics: Economics,
    accounts: seq<Allocation>,
    allocationApproval: Approval,
    accountsDigest: Digest,
    safekeeping: Safekeeping,
    custodyDigest: Digest,
    source: Digest)

  function Compile(p: Plan): RawCandidate
    requires Ready(p)
  {
    var b := p.body;
    var accounts := Sorted(b.allocations.accounts, Address);
    var custody := Custody(true, b.safekeeping.custody.threshold, Sorted(b.safekeeping.custody.participants, Same),
                           b.safekeeping.custody.evidence);
    RawCandidate(CandidateHeader, b.economics, accounts, b.allocations.approval, AllocationsDigest(accounts),
                 Safekeeping(custody, b.safekeeping.approval), CustodyCommitment(custody), p.digest)
  }

  predicate CandidateClean(c: RawCandidate) {
    && TermsClean(c.economics.definition.terms)
    && AccountsClean(c.accounts)
    && OptClean(c.economics.approval.recordId)
    && OptClean(c.allocationApproval.recordId)
    && OptClean(c.safekeeping.approval.recordId)
  }

  predicate CandidateAllocationsValid(c: RawCandidate) {
    && AllocationsValid(NormalDefinition(c.economics.definition), Allocations(true, c.accounts, c.allocationApproval))
    && IsApproved(c.allocationApproval)
    && Canonical(Addresses(NormalAccounts(c.accounts)))
    && c.accountsDigest == AllocationsDigest(NormalAccounts(c.accounts))
  }

  predicate CandidateCustodyValid(c: RawCandidate) {
    && SafekeepingValid(NormalDefinition(c.economics.definition),
                        NormalAllocations(Allocations(true, c.accounts, c.allocationApproval)), c.safekeeping)
    && c.safekeeping.custody.locked && IsApproved(c.safekeeping.approval)
    && Canonical(NormalCustody(c.safekeeping.custody).participants)
    && c.custodyDigest == CustodyCommitment(NormalCustody(c.safekeeping.custody))
  }

  predicate CandidateValid(c: RawCandidate) {
    && c.header == CandidateHeader
    && CandidateClean(c)
    && EconomicsValid(c.economics) && c.economics.definition.locked && IsApproved(c.economics.approval)
    && CandidateAllocationsValid(c)
    && CandidateCustodyValid(c)
    && IsDigest(c.source)
  }

  /** The checker, alone or bound to the plan a candidate comes from. */
  predicate Accepts(c: RawCandidate, plan: Option<Plan>) {
    && CandidateValid(c)
    && (plan.Some? ==> Ready(plan.value) && c.source == plan.value.digest && c == Compile(plan.value))
  }

  // ------------------------------------------------------------- normal forms

  lemma OptStripTwice(s: Option<string>, most: nat)
    requires OptTextValid(s, most)
    ensures OptTextValid(OptStrip(s), most) && OptStrip(OptStrip(s)) == OptStrip(s)
    ensures OptClean(s) ==> OptClean(OptStrip(s))
  {
    if s.Some? {
      StripTwice(s.value);
      if Clean(s.value) { StripIsClean(s.value); }
    }
  }

  lemma TermsTwice(t: Terms)
    requires TermsValid(t)
    ensures TermsValid(NormalTerms(t)) && NormalTerms(NormalTerms(t)) == NormalTerms(t)
    ensures TermsClean(t) ==> TermsClean(NormalTerms(t))
  {
    OptStripTwice(t.name, 64);
    OptStripTwice(t.symbol, 10);
  }

  lemma AccountTwice(a: Allocation)
    requires TextValid(a.category, 64)
    ensures TextValid(NormalAccount(a).category, 64) && NormalAccount(NormalAccount(a)) == NormalAccount(a)
  {
    StripTwice(a.category);
    LowerIdempotent(a.address);
  }

  lemma AccountsTwice(accounts: seq<Allocation>)
    requires AccountsValid(accounts)
    ensures AccountsValid(NormalAccounts(accounts)) &&
            NormalAccounts(NormalAccounts(accounts)) == NormalAccounts(accounts)
  {
    var normal := NormalAccounts(accounts);
    forall i | 0 <= i < |accounts|
      ensures NormalAccount(normal[i]) == normal[i] && TextValid(normal[i].category, 64) && 0 < normal[i].amount
    {
      AccountTwice(accounts[i]);
    }
    LowerAllTwice(Addresses(accounts));
    assert Addresses(normal) == LowerAll(Addresses(accounts));
  }

  lemma AccountsStayClean(accounts: seq<Allocation>)
    requires AccountsClean(accounts)
    ensures AccountsClean(NormalAccounts(accounts))
  {
    forall i | 0 <= i < |accounts|
      ensures Clean(NormalAccounts(accounts)[i].category)
    {
      StripIsClean(accounts[i].category);
    }
  }

  lemma CustodyTwice(c: Custody)
    requires CustodyValid(c)
    ensures CustodyValid(NormalCustody(c)) && NormalCustody(NormalCustody(c)) == NormalCustody(c)
  {
    LowerAllTwice(c.participants);
  }

  lemma ApprovalTwice(a: Approval, locked: bool, prerequisites: bool, bindings: seq<Digest>)
    requires ApprovalValid(a, locked, prerequisites, bindings)
    ensures ApprovalValid(NormalApproval(a), locked, prerequisites, bindings)
    ensures OptClean(a.recordId) ==> OptClean(NormalApproval(a).recordId)
  {
    OptStripTwice(a.recordId, 200);
  }

  lemma EconomicsTwice(e: Economics)
    requires EconomicsValid(e)
    ensures EconomicsValid(NormalEconomics(e)) &&
            NormalDefinition(NormalEconomics(e).definition) == NormalDefinition(e.definition)
  {
    TermsTwice(e.definition.terms);
    ApprovalTwice(e.approval, e.definition.locked, true, [DefinitionDigest(NormalTerms(e.definition.terms))]);
  }

  lemma AllocationsTwice(d: Definition, a: Allocations)
    requires AllocationsValid(d, a)
    ensures AllocationsValid(d, NormalAllocations(a))
  {
    var accounts := NormalAccounts(a.accounts);
    AccountsTwice(a.accounts);
    ApprovalTwice(a.approval, a.locked, d.locked && accounts != [] && Canonical(Addresses(accounts)),
                  [DefinitionDigest(d.terms), AllocationsDigest(accounts)]);
  }

  lemma SafekeepingTwice(d: Definition, a: Allocations, s: Safekeeping)
    requires SafekeepingValid(d, a, s)
    ensures SafekeepingValid(d, a, NormalSafekeeping(s))
  {
    var c := NormalCustody(s.custody);
    CustodyTwice(s.custody);
    ApprovalTwice(s.approval, c.locked,
                  d.locked && a.locked && a.accounts != [] && Canonical(Addresses(a.accounts)) &&
                    Canonical(c.participants),
                  [DefinitionDigest(d.terms), AllocationsDigest(a.accounts), CustodyDigest(c)]);
  }

  // ------------------------------------------------------------------ results

  predicate AllApproved(b: Body) {
    && b.economics.definition.locked && IsApproved(b.economics.approval)
    && b.allocations.locked && IsApproved(b.allocations.approval)
    && b.safekeeping.custody.locked && IsApproved(b.safekeeping.approval)
  }

  /** In a valid plan that is ready, everything is locked and approved and already in order,
      so that sorting changes nothing. */
  lemma ReadyIsCanonical(raw: RawPlan)
    requires SectionsValid(raw.body) && GatesMatch(raw.body) && Ready(PlanOf(raw))
    ensures AllApproved(raw.body)
    ensures var b := NormalBody(raw.body);
            && Sorted(b.allocations.accounts, Address) == b.allocations.accounts
            && Sorted(b.safekeeping.custody.participants, Same) == b.safekeeping.custody.participants
  {
    var (p, b) := (PlanOf(raw), NormalBody(raw.body));
    GatesMatchNormal(raw.body);
    ReadyIff(p);
    assert NativeEconomicsLocked in b.passed && DeterministicGenesisAllocations in b.passed &&
           CustodyKeyCeremony in b.passed;
    CanonicalIff(Addresses(b.allocations.accounts));
    SortedLeavesOrdered(b.allocations.accounts, Address);
  }

  lemma CompiledIsClean(raw: RawPlan)
    requires SectionsValid(raw.body) && GatesMatch(raw.body) && Ready(PlanOf(raw)) && BodyClean(raw.body)
    ensures CandidateClean(Compile(PlanOf(raw)))
  {
    ReadyIsCanonical(raw);
    var b := raw.body;
    TermsTwice(b.economics.definition.terms);
    AccountsStayClean(b.allocations.accounts);
    OptStripTwice(b.economics.approval.recordId, 200);
    OptStripTwice(b.allocations.approval.recordId, 200);
    OptStripTwice(b.safekeeping.approval.recordId, 200);
  }

  lemma CompiledAllocations(d: Definition, a: Allocations, c: RawCandidate)
    requires AllocationsValid(d, a) && a.locked && IsApproved(a.approval)
    requires d == NormalDefinition(c.economics.definition)
    requires c.accounts == NormalAccounts(a.accounts) && c.allocationApproval == NormalApproval(a.approval)
    requires c.accountsDigest == AllocationsDigest(c.accounts)
    ensures CandidateAllocationsValid(c)
  {
    AllocationsTwice(d, a);
    AccountsTwice(a.accounts);
    assert Allocations(true, c.accounts, c.allocationApproval) == NormalAllocations(a);
  }

  lemma CompiledCustody(d: Definition, a: Allocations, s: Safekeeping, c: RawCandidate)
    requires AccountsValid(a.accounts) && SafekeepingValid(d, NormalAllocations(a), s)
    requires a.locked && s.custody.locked && IsApproved(s.approval)
    requires d == NormalDefinition(c.economics.definition)
    requires c.accounts == NormalAccounts(a.accounts) && c.safekeeping == NormalSafekeeping(s)
    requires c.custodyDigest == CustodyCommitment(c.safekeeping.custody)
    ensures CandidateCustodyValid(c)
  {
    AccountsTwice(a.accounts);
    SafekeepingTwice(d, NormalAllocations(a), s);
    CustodyTwice(s.custody);
    var again := NormalAllocations(Allocations(true, c.accounts, c.allocationApproval));
    assert again.accounts == NormalAllocations(a).accounts && again.locked == a.locked;
  }

  lemma CompiledIsValid(raw: RawPlan)
    requires PlanValid(raw) && Ready(PlanOf(raw))
    ensures CandidateValid(Compile(PlanOf(raw)))
  {
    var (b, c) := (raw.body, Compile(PlanOf(raw)));
    CompiledIsClean(raw);
    ReadyIsCanonical(raw);
    EconomicsTwice(b.economics);
    var d := NormalDefinition(b.economics.definition);
    CompiledAllocations(d, b.allocations, c);
    CompiledCustody(d, b.allocations, b.safekeeping, c);
  }

  /** Compiler and checker agree: for every valid plan, the checker bound to the plan accepts
      exactly one document, the compiled candidate, and it accepts it exactly when the plan is
      ready. */
  lemma AcceptsIffCompiled(raw: RawPlan, c: RawCandidate)
    requires PlanValid(raw)
    ensures Accepts(c, Some(PlanOf(raw))) <==> Ready(PlanOf(raw)) && c == Compile(PlanOf(raw))
  {
    if Ready(PlanOf(raw)) { CompiledIsValid(raw); }
  }

  lemma AllotsTheSupply(c: RawCandidate)
    requires CandidateAllocationsValid(c)
    ensures var accounts := NormalAccounts(c.accounts);
            && InOrder(Addresses(accounts)) && Distinct(Addresses(accounts))
            && (forall i | 0 <= i < |accounts| :: 0 < accounts[i].amount)
            && c.economics.definition.terms.supply == Some(Total(accounts))
  {
    var accounts := NormalAccounts(c.accounts);
    CanonicalIff(Addresses(accounts));
    assert Addresses(accounts) == LowerAll(Addresses(c.accounts));
  }

  lemma NamesEnoughCustodians(c: RawCandidate)
    requires CandidateCustodyValid(c)
    ensures var custody := NormalCustody(c.safekeeping.custody);
            && InOrder(custody.participants) && Distinct(custody.participants) && custody.threshold.Some?
            && 2 <= custody.threshold.value <= |custody.participants|
  {
    CanonicalIff(NormalCustody(c.safekeeping.custody).participants);
  }

  /** Whatever plan it came from, an accepted candidate allots distinct addresses in order and
      positive amounts that add up to exactly the total supply, and names at least as many
      distinct custodians as its threshold of two or more. */
  lemma AcceptedAllotsTheSupply(c: RawCandidate, plan: Option<Plan>)
    requires Accepts(c, plan)
    ensures var accounts := NormalAccounts(c.accounts);
            && InOrder(Addresses(accounts)) && Distinct(Addresses(accounts))
            && (forall i | 0 <= i < |accounts| :: 0 < accounts[i].amount)
            && c.economics.definition.terms.supply == Some(Total(accounts))
    ensures var custody := NormalCustody(c.safekeeping.custody);
            && InOrder(custody.participants) && Distinct(custody.participants) && custody.threshold.Some?
            && 2 <= custody.threshold.value <= |custody.participants|
  {
    AllotsTheSupply(c);
    NamesEnoughCustodians(c);
  }
}
