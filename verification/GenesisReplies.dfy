/** Which Genesis plans are valid and which decisions apply, with the conditions written out. */
module GenesisReplies {
  import opened GenesisCandidate
  import opened GenesisDecisions
  import opened GenesisPlan
  import opened GenesisRecords
  import opened Prelude
  import opened TextForms

  // ---------------------------------------------------------------------- text

  ghost predicate HasText(s: string, most: nat) {
    exists i: nat, j: nat :: StripsTo(s, i, j) && i < j <= i + most
  }

  lemma BlankBefore(s: string, n: nat, k: nat)
    requires n <= |s| && k < |s| && IsBlank(s[..n])
    ensures k < n ==> IsSpace(s[k])
  {
    if k < n { assert s[..n][k] == s[k]; }
  }

  lemma BlankAfter(s: string, n: nat, k: nat)
    requires n <= |s| && k < |s| && IsBlank(s[n..])
    ensures n <= k ==> IsSpace(s[k])
  {
    if n <= k { assert s[n..][k - n] == s[k]; }
  }

  /** What is left after stripping is within any other place that is left. */
  lemma StripsToWithin(s: string, i: nat, j: nat, i': nat, j': nat)
    requires StripsTo(s, i, j) && StripsTo(s, i', j') && i < j
    ensures i' <= i < j <= j'
  {
    BlankBefore(s, i', i);
    BlankAfter(s, j', j - 1);
  }

  /** A field has text when something other than white space is in it, and not too much of it. */
  lemma TextValidIff(s: string, most: nat)
    ensures TextValid(s, most) <==> HasText(s, most)
  {
    var i, j := StripIs(s);
    if HasText(s, most) {
      var i': nat, j': nat :| StripsTo(s, i', j') && i' < j' <= i' + most;
      StripsToWithin(s, i', j', i, j);
      StripsToWithin(s, i, j, i', j');
    }
  }

  ghost predicate Contains(s: string, marker: string) {
    exists before, inside, after :: SplitsAs(s, before, inside, after) && Lower(inside) == marker
  }

  ghost predicate SplitsAs(s: string, before: string, inside: string, after: string) {
    s == before + inside + after
  }

  lemma OccursIff(s: string, marker: string)
    ensures Occurs(marker, s) <==> Contains(s, marker)
  {
    if Occurs(marker, s) {
      var i :| 0 <= i <= |s| && OccursAt(marker, s, i);
      assert SplitsAs(s, s[..i], s[i..i + |marker|], s[i + |marker|..]);
    }
    if Contains(s, marker) {
      var before, inside, after :| SplitsAs(s, before, inside, after) && Lower(inside) == marker;
      assert s[|before|..|before| + |marker|] == inside && OccursAt(marker, s, |before|);
    }
  }

  /** No text holds one of the four names of secrets, in letters of any case. */
  lemma CleanIff(s: string)
    ensures Clean(s) <==>
              && !Contains(s, "private_key") && !Contains(s, "mnemonic")
              && !Contains(s, "seed_phrase") && !Contains(s, "secret_value")
  {
    var markers := SecretMarkers();
    assert |markers| == 4 && markers[0] == "private_key" && markers[1] == "mnemonic";
    assert markers[2] == "seed_phrase" && markers[3] == "secret_value";
    OccursIff(s, markers[0]);
    OccursIff(s, markers[1]);
    OccursIff(s, markers[2]);
    OccursIff(s, markers[3]);
  }

  predicate IsNonzeroHex(body: string) {
    (forall i | 0 <= i < |body| :: body[i] in "0123456789abcdefABCDEF") && exists i :: 0 <= i < |body| && body[i] != '0'
  }

  /** An account address is 0x and 40 digits in base 16, not all of them zero. */
  lemma AddressValidIff(s: string)
    ensures AddressValid(s) <==> exists body :: Is0x(s, body, 40) && IsNonzeroHex(body)
  {
    BodyIs(s, 40);
    assert forall c :: IsHexDigit(c) <==> c in "0123456789abcdefABCDEF";
    if |s| == 42 {
      assert s[..2] == "0x" <==> s[0] == '0' && s[1] == 'x';
      assert forall i | 2 <= i < 42 :: s[i] == s[2..][i - 2];
      assert forall i | 0 <= i < 40 :: s[2..][i] == s[i + 2];
    }
  }

  const CAPITALS := "ABCDEFGHIJKLMNOPQRSTUVWXYZ"

  /** A symbol is two to ten capitals and digits, a capital first. */
  lemma SymbolIff(s: string)
    ensures IsSymbol(s) <==>
              && |s| in {2, 3, 4, 5, 6, 7, 8, 9, 10} && s[0] in CAPITALS
              && forall c | c in s :: c in CAPITALS + "0123456789"
  {
    assert forall c :: IsUpper(c) <==> c in CAPITALS;
    assert forall c :: c in CAPITALS + "0123456789" <==> c in CAPITALS || c in "0123456789";
    assert forall c :: '0' <= c <= '9' <==> c in "0123456789";
  }

  // ------------------------------------------------------------------ sections

  ghost predicate Accounted(a: Allocation) {
    AddressValid(a.address) && 1 <= a.amount && HasText(a.category, 64)
  }

  /** No two of the names are the same but for capitals. */
  ghost predicate AllDiffer(names: seq<string>) {
    forall i, j | 0 <= i < j < |names| :: !SameLetters(names[i], names[j])
  }

  lemma AddressesValidIff(names: seq<string>)
    ensures AddressesValid(names) <==> (forall i | 0 <= i < |names| :: AddressValid(names[i])) && AllDiffer(names)
  {
    forall i, j | 0 <= i < j < |names|
      ensures LowerAll(names)[i] == LowerAll(names)[j] <==> SameLetters(names[i], names[j])
    {
      LowerSameIff(names[i], names[j]);
    }
  }

  lemma AccountsValidIff(accounts: seq<Allocation>)
    ensures AccountsValid(accounts) <==>
              (forall i | 0 <= i < |accounts| :: Accounted(accounts[i])) && AllDiffer(Addresses(accounts))
  {
    AddressesValidIff(Addresses(accounts));
    forall i | 0 <= i < |accounts|
      ensures Addresses(accounts)[i] == accounts[i].address
      ensures TextValid(accounts[i].category, 64) <==> HasText(accounts[i].category, 64)
    {
      TextValidIff(accounts[i].category, 64);
    }
  }

  ghost predicate OptHasText(s: Option<string>, most: nat) {
    s.None? || HasText(s.value, most)
  }

  lemma TermsValidIff(t: Terms)
    ensures TermsValid(t) <==>
              && OptHasText(t.name, 64) && OptHasText(t.symbol, 10)
              && (t.symbol.None? || IsSymbol(Strip(t.symbol.value)))
              && (t.decimals.None? || -1 < t.decimals.value < 19)
              && (t.supply.None? || 1 <= t.supply.value)
              && (t.supplyModel.None? || t.supplyModel.value in {FixedSupply, CappedSupply, ProtocolGoverned})
              && (t.issuance.None? || t.issuance.value in {Disabled, GovernanceUpgradeOnly})
              && (t.feeModel.None? || t.feeModel.value in {Burn, ValidatorReward, BurnAndReward})
  {
    if t.name.Some? { TextValidIff(t.name.value, 64); }
    if t.symbol.Some? { TextValidIff(t.symbol.value, 10); }
  }

  /** Custody that is locked has at least three custodians, a threshold of two or more of them, and evidence. */
  lemma CustodyValidIff(c: Custody)
    ensures CustodyValid(c) <==>
              && (forall i | 0 <= i < |c.participants| :: AddressValid(c.participants[i])) && AllDiffer(c.participants)
              && !(exists text :: c.evidence == Some(NotADigest(text)))
              && (c.locked ==>
                    && 2 < |c.participants| && c.evidence != None
                    && exists n :: c.threshold == Some(n) && 1 < n <= |c.participants|)
  {
    AddressesValidIff(c.participants);
  }

  /** Every binding approves the digest at its place. */
  ghost predicate ApprovesAll(a: Approval, bindings: seq<Digest>) {
    |a.bindings| == |bindings| && forall i | 0 <= i < |bindings| :: a.bindings[i] == Some(bindings[i])
  }

  ghost predicate NothingYet(a: Approval, n: nat) {
    a == Approval(ApprovalRequired, None, seq(n, _ => None), None, None)
  }

  ghost predicate InFull(a: Approval, bindings: seq<Digest>) {
    && a.status == Approved && ApprovesAll(a, bindings) && a.recordId.Some? && HasText(a.recordId.value, 200)
    && a.record.Some? && IsDigest(a.record.value) && a.at.Some? && a.at.value.utc
  }

  /** An approval is either not there at all, with nothing locked, or there in full, with the lock and all
      that has to come before. */
  lemma ApprovalValidIff(a: Approval, locked: bool, prerequisites: bool, bindings: seq<Digest>)
    requires forall i | 0 <= i < |bindings| :: IsDigest(bindings[i])
    ensures ApprovalValid(a, locked, prerequisites, bindings) <==>
              || (!locked && NothingYet(a, |bindings|))
              || (locked && prerequisites && InFull(a, bindings))
  {
    if a.recordId.Some? { TextValidIff(a.recordId.value, 200); }
    if a.status == ApprovalRequired && NoEvidence(a) && |a.bindings| == |bindings| {
      assert a.bindings == seq(|bindings|, _ => None);
    }
  }

  /** In a valid plan a section is locked exactly when it is approved. */
  lemma LockedMeansApproved(a: Approval, locked: bool, prerequisites: bool, bindings: seq<Digest>)
    requires ApprovalValid(a, locked, prerequisites, bindings)
    ensures locked <==> IsApproved(a)
  {
  }

  /** In a valid plan each of the three gates has passed exactly when its section is locked, and the sections
      are locked in order. */
  lemma GatesFollowLocks(raw: RawPlan)
    requires PlanValid(raw)
    ensures var b := raw.body;
            && (NativeEconomicsLocked in b.passed <==> b.economics.definition.locked)
            && (DeterministicGenesisAllocations in b.passed <==> b.allocations.locked)
            && (CustodyKeyCeremony in b.passed <==> b.safekeeping.custody.locked)
            && (b.safekeeping.custody.locked ==> b.allocations.locked)
            && (b.allocations.locked ==> b.economics.definition.locked && b.allocations.accounts != [])
  {
    var b := raw.body;
    LockedMeansApproved(b.economics.approval, b.economics.definition.locked, true,
                        [DefinitionDigest(NormalTerms(b.economics.definition.terms))]);
  }

  lemma MilestoneValidIff(i: nat, m: Milestone, passed: set<Gate>)
    requires i < |LockedMilestones()|
    ensures MilestoneValid(i, m, passed) <==>
              && m.id == LockedMilestones()[i].0 && m.due == LockedMilestones()[i].1 && HasText(m.owner, 100)
              && (m.status == NotStarted || m.status == InProgress ||
                  (m.status == Completed && forall g | g in MilestoneGates(i) :: g in passed))
  {
    TextValidIff(m.owner, 100);
  }

  predicate AllFilled(t: Terms) {
    && t.name != None && t.symbol != None && t.decimals != None && t.supply != None
    && t.supplyModel != None && t.issuance != None && t.feeModel != None
  }

  /** The economics are open, or locked, filled in and approved. */
  lemma EconomicsValidIff(e: Economics)
    ensures var (d, a) := (e.definition, e.approval);
            EconomicsValid(e) <==>
              && TermsValid(d.terms)
              && if d.locked then AllFilled(d.terms) && InFull(a, [DefinitionDigest(NormalTerms(d.terms))])
                 else NothingYet(a, 1)
  {
    ApprovalValidIff(e.approval, e.definition.locked, true, [DefinitionDigest(NormalTerms(e.definition.terms))]);
  }

  lemma AllocationApprovalIff(d: Definition, locked: bool, accounts: seq<Allocation>, a: Approval)
    ensures AllocationApprovalValid(d, locked, accounts, a) <==>
              if locked then
                && d.locked && accounts != [] && InOrder(Addresses(accounts))
                && InFull(a, [DefinitionDigest(d.terms), AllocationsDigest(accounts)])
              else NothingYet(a, 2)
  {
    CanonicalIff(Addresses(accounts));
    ApprovalValidIff(a, locked, d.locked && accounts != [] && Canonical(Addresses(accounts)),
                     [DefinitionDigest(d.terms), AllocationsDigest(accounts)]);
  }

  /** The total is the sum of the amounts: what two parts come to together, and each account by itself. */
  lemma {:induction false} TotalAddsUp(a: seq<Allocation>, b: seq<Allocation>)
    ensures Total(a + b) == Total(a) + Total(b)
    ensures forall x :: Total([x]) == x.amount
  {
    forall x
      ensures Total([x]) == x.amount
    {
      assert [x][..0] == [];
    }
    if b == [] {
      assert a + b == a;
    } else {
      var n := |b| - 1;
      TotalAddsUp(a, b[..n]);
      assert (a + b)[..|a + b| - 1] == a + b[..n];
    }
  }

  /** The allocations are open, or locked on top of locked economics, in order, adding up to the supply, and
      approved together with the economics. */
  lemma AllocationsValidIff(d: Definition, a: Allocations)
    ensures var accounts := NormalAccounts(a.accounts);
            AllocationsValid(d, a) <==>
              && AccountsValid(a.accounts) && (accounts != [] ==> d.terms.supply != None)
              && if a.locked then
                   && d.locked && accounts != [] && InOrder(Addresses(accounts))
                   && d.terms.supply == Some(Total(accounts))
                   && InFull(a.approval, [DefinitionDigest(d.terms), AllocationsDigest(accounts)])
                 else NothingYet(a.approval, 2)
  {
    AllocationApprovalIff(d, a.locked, NormalAccounts(a.accounts), a.approval);
  }

  lemma CustodyApprovalIff(d: Definition, a: Allocations, c: Custody, approval: Approval)
    ensures CustodyApprovalValid(d, a, c, approval) <==>
              if c.locked then
                && d.locked && a.locked && a.accounts != [] && InOrder(Addresses(a.accounts)) && InOrder(c.participants)
                && InFull(approval, [DefinitionDigest(d.terms), AllocationsDigest(a.accounts), CustodyDigest(c)])
              else NothingYet(approval, 3)
  {
    CanonicalIff(Addresses(a.accounts));
    CanonicalIff(c.participants);
    ApprovalValidIff(approval, c.locked,
                     d.locked && a.locked && a.accounts != [] && Canonical(Addresses(a.accounts)) &&
                       Canonical(c.participants),
                     [DefinitionDigest(d.terms), AllocationsDigest(a.accounts), CustodyDigest(c)]);
  }

  /** Custody is open, or locked on top of both, in order, and approved together with them. */
  lemma SafekeepingValidIff(d: Definition, a: Allocations, s: Safekeeping)
    ensures var custody := NormalCustody(s.custody);
            SafekeepingValid(d, a, s) <==>
              && CustodyValid(s.custody)
              && if s.custody.locked then
                   && d.locked && a.locked && a.accounts != [] && InOrder(Addresses(a.accounts))
                   && InOrder(custody.participants)
                   && InFull(s.approval,
                             [DefinitionDigest(d.terms), AllocationsDigest(a.accounts), CustodyDigest(custody)])
                 else NothingYet(s.approval, 3)
  {
    CustodyApprovalIff(d, a, NormalCustody(s.custody), s.approval);
  }

  /** The text is one of those that a plan leaves free. */
  ghost predicate PlanHolds(b: Body, text: string) {
    || b.economics.definition.terms.name == Some(text) || b.economics.definition.terms.symbol == Some(text)
    || (exists i :: 0 <= i < |b.allocations.accounts| && b.allocations.accounts[i].category == text)
    || (exists i :: 0 <= i < |b.milestones| && b.milestones[i].owner == text)
    || exists a | a in [b.economics.approval, b.allocations.approval, b.safekeeping.approval] ::
       a.recordId == Some(text)
  }

  /** No text of a clean plan holds the name of a secret. */
  lemma BodyCleanIff(b: Body)
    ensures BodyClean(b) <==> forall text | PlanHolds(b, text) :: Clean(text)
  {
    var approvals := [b.economics.approval, b.allocations.approval, b.safekeeping.approval];
    assert approvals[0] in approvals && approvals[1] in approvals && approvals[2] in approvals;
    if forall text | PlanHolds(b, text) :: Clean(text) {
      if b.economics.definition.terms.name.Some? { assert PlanHolds(b, b.economics.definition.terms.name.value); }
      if b.economics.definition.terms.symbol.Some? { assert PlanHolds(b, b.economics.definition.terms.symbol.value); }
      if approvals[0].recordId.Some? { assert PlanHolds(b, approvals[0].recordId.value); }
      if approvals[1].recordId.Some? { assert PlanHolds(b, approvals[1].recordId.value); }
      if approvals[2].recordId.Some? { assert PlanHolds(b, approvals[2].recordId.value); }
      forall i | 0 <= i < |b.allocations.accounts|
        ensures Clean(b.allocations.accounts[i].category)
      {
        assert PlanHolds(b, b.allocations.accounts[i].category);
      }
      forall i | 0 <= i < |b.milestones|
        ensures Clean(b.milestones[i].owner)
      {
        assert PlanHolds(b, b.milestones[i].owner);
      }
    }
  }

  /** A plan is valid exactly when it is a plan, holds no name of a secret, its sections are, its first three
      gates have passed exactly where its sections are locked, and it keeps the seven milestones. */
  lemma PlanValidIff(raw: RawPlan)
    ensures var b := raw.body;
            PlanValid(raw) <==>
              && raw.header == PlanHeader && BodyClean(b) && SectionsValid(b)
              && (NativeEconomicsLocked in b.passed <==> b.economics.definition.locked)
              && (DeterministicGenesisAllocations in b.passed <==> b.allocations.locked)
              && (CustodyKeyCeremony in b.passed <==> b.safekeeping.custody.locked)
              && |b.milestones| == 7 && forall i | 0 <= i < 7 :: MilestoneValid(i, b.milestones[i], b.passed)
  {
    var b := raw.body;
    if SectionsValid(b) { SectionsFollowLocks(b); }
  }

  lemma SectionsFollowLocks(b: Body)
    requires SectionsValid(b)
    ensures b.economics.definition.locked <==> IsApproved(b.economics.approval)
    ensures b.allocations.locked <==> IsApproved(b.allocations.approval)
    ensures b.safekeeping.custody.locked <==> IsApproved(b.safekeeping.approval)
  {
    EconomicsValidIff(b.economics);
    AllocationsValidIff(NormalDefinition(b.economics.definition), b.allocations);
    SafekeepingValidIff(NormalDefinition(b.economics.definition), NormalAllocations(b.allocations), b.safekeeping);
  }

  // ----------------------------------------------------------------- decisions

  ghost predicate SoundRecord(r: RawRecord) {
    r.header == DecisionHeader && Clean(r.id) && HasText(r.id, 200) && r.at.utc && IsDigest(r.evidence)
  }

  lemma RecordAcceptedIff(r: RawRecord)
    ensures RecordAccepted(r) <==> SoundRecord(r)
  {
    TextValidIff(r.id, 200);
  }

  /** Which documents are decisions: a sound record with complete and locked terms, ... */
  lemma EconomicsEvaluatedIff(r: RawRecord, d: Definition)
    ensures EvaluateEconomics(r, d).Some? <==>
              SoundRecord(r) && TermsClean(d.terms) && TermsValid(d.terms) && d.locked && AllFilled(d.terms)
  {
    RecordAcceptedIff(r);
  }

  /** ... with accounts in order that add up to the total, ... */
  lemma AllocationsEvaluatedIff(r: RawRecord, definition: Digest, accounts: seq<Allocation>, total: int)
    ensures EvaluateAllocations(r, definition, accounts, total).Some? <==>
              && SoundRecord(r) && IsDigest(definition) && AccountsClean(accounts) && AccountsValid(accounts)
              && accounts != [] && InOrder(Addresses(NormalAccounts(accounts)))
              && Total(NormalAccounts(accounts)) == total && 1 <= total
  {
    RecordAcceptedIff(r);
    CanonicalIff(Addresses(NormalAccounts(accounts)));
  }

  /** ... or with locked custody whose custodians are in order. */
  lemma CustodyEvaluatedIff(r: RawRecord, definition: Digest, allocations: Digest, c: Custody)
    ensures EvaluateCustody(r, definition, allocations, c).Some? <==>
              && SoundRecord(r) && IsDigest(definition) && IsDigest(allocations) && CustodyValid(c)
              && c.locked && InOrder(NormalCustody(c).participants)
  {
    RecordAcceptedIff(r);
    CanonicalIff(NormalCustody(c).participants);
  }

  /** What was filled in stays. */
  predicate KeepsTerms(t: Terms, t': Terms) {
    && t.name in {None, t'.name} && t.symbol in {None, t'.symbol} && t.decimals in {None, t'.decimals}
    && t.supply in {None, t'.supply} && t.supplyModel in {None, t'.supplyModel}
    && t.issuance in {None, t'.issuance} && t.feeModel in {None, t'.feeModel}
  }

  /** The approval that a decision leaves. */
  ghost predicate IsApprovalOf(a: Approval, r: Record, bindings: seq<Digest>) {
    && a.status == Approved && a.recordId == Some(r.id) && a.record == Some(r.digest) && a.at == Some(r.at)
    && ApprovesAll(a, bindings)
  }

  lemma ApprovalFromIff(a: Approval, r: Record, bindings: seq<Digest>)
    ensures a == ApprovalFrom(r, bindings) <==> IsApprovalOf(a, r, bindings)
  {
  }

  lemma EconomicsFitPlanIff(raw: RawPlan, d: EconomicsDecision)
    requires raw.body.economics.definition.locked <==> IsApproved(raw.body.economics.approval)
    ensures var e := raw.body.economics;
            EconomicsFits(NormalBody(raw.body), d) <==>
              && KeepsTerms(NormalTerms(e.definition.terms), d.terms)
              && (e.definition.locked ==>
                    IsApprovalOf(NormalApproval(e.approval), d.record, [DefinitionDigest(d.terms)]))
  {
    ApprovalFromIff(NormalApproval(raw.body.economics.approval), d.record, [DefinitionDigest(d.terms)]);
  }

  /** A sound economics decision applies to a valid plan exactly when it keeps the terms that are filled in, and
      the approval if there is one. */
  lemma EconomicsAppliedIff(raw: RawPlan, d: EconomicsDecision)
    requires EconomicsSound(d)
    ensures var (r, e) := (ApplyEconomics(raw, d), raw.body.economics);
            && (r.Some? <==>
                  && PlanValid(raw) && KeepsTerms(NormalTerms(e.definition.terms), d.terms)
                  && (e.definition.locked ==>
                        IsApprovalOf(NormalApproval(e.approval), d.record, [DefinitionDigest(d.terms)])))
            && (r.Some? ==>
                  && r.value.body.economics.definition == Definition(true, d.terms)
                  && IsApprovalOf(r.value.body.economics.approval, d.record, [DefinitionDigest(d.terms)])
                  && r.value.body.passed == raw.body.passed + {NativeEconomicsLocked})
  {
    EconomicsAppliesIff(raw, d);
    if PlanValid(raw) {
      SectionsFollowLocks(raw.body);
      EconomicsFitPlanIff(raw, d);
    }
    ApprovalFromIff(EconomicsApproval(d), d.record, [DefinitionDigest(d.terms)]);
  }

  /** A sound allocation decision applies exactly when the economics gate has passed, the decision is about those
      economics and their whole supply, and it keeps the accounts and the approval that are there. */
  lemma AllocationsAppliedIff(raw: RawPlan, d: AllocationDecision)
    requires AllocationsSound(d)
    ensures var (r, terms, a) := (ApplyAllocations(raw, d), NormalTerms(raw.body.economics.definition.terms),
                                  raw.body.allocations);
            var bindings := [d.definition, AllocationsDigest(d.accounts)];
            && (r.Some? <==>
                  && PlanValid(raw) && NativeEconomicsLocked in raw.body.passed
                  && d.definition == DefinitionDigest(terms) && terms.supply == Some(d.total)
                  && (a.accounts == [] || NormalAccounts(a.accounts) == d.accounts)
                  && (a.locked ==> IsApprovalOf(NormalApproval(a.approval), d.record, bindings)))
            && (r.Some? ==>
                  && r.value.body.allocations.locked && r.value.body.allocations.accounts == d.accounts
                  && IsApprovalOf(r.value.body.allocations.approval, d.record, bindings)
                  && r.value.body.passed == raw.body.passed + {DeterministicGenesisAllocations})
  {
    var bindings := [d.definition, AllocationsDigest(d.accounts)];
    AllocationsApplyIff(raw, d);
    ApprovalFromIff(NormalApproval(raw.body.allocations.approval), d.record, bindings);
    ApprovalFromIff(AllocationApproval(d), d.record, bindings);
    if PlanValid(raw) { SectionsFollowLocks(raw.body); }
  }

  /** Custody that is there in part or in full is kept as a whole. */
  predicate KeepsCustody(c: Custody, c': Custody) {
    c == Custody(false, None, [], None) || c.(locked := true) == c'
  }

  lemma CustodyFitsIff(b: Body, d: CustodyDecision)
    requires d.custody.locked
    ensures CustodyFits(b, d) <==>
              && b.economics.definition.locked && IsApproved(b.economics.approval)
              && b.allocations.locked && IsApproved(b.allocations.approval)
              && d.definition == DefinitionDigest(b.economics.definition.terms)
              && d.allocations == AllocationsDigest(b.allocations.accounts)
              && KeepsCustody(b.safekeeping.custody, d.custody)
              && (IsApproved(b.safekeeping.approval) ==> b.safekeeping.approval == CustodyApproval(d))
  {
  }

  lemma CustodyLeaves(raw: RawPlan, d: CustodyDecision)
    requires d.custody.locked
    ensures var b := WithCustody(raw, d).body;
            && b.safekeeping.custody == d.custody && b.passed == raw.body.passed + {CustodyKeyCeremony}
            && IsApprovalOf(b.safekeeping.approval, d.record, [d.definition, d.allocations, CustodyDigest(d.custody)])
  {
    ApprovalFromIff(CustodyApproval(d), d.record, [d.definition, d.allocations, CustodyDigest(d.custody)]);
  }

  lemma CustodyFitsPlanIff(raw: RawPlan, d: CustodyDecision)
    requires GatesMatch(raw.body) && d.custody.locked
    requires raw.body.safekeeping.custody.locked <==> IsApproved(raw.body.safekeeping.approval)
    ensures var (c, a) := (NormalCustody(raw.body.safekeeping.custody), NormalApproval(raw.body.safekeeping.approval));
            CustodyFits(NormalBody(raw.body), d) <==>
              && {NativeEconomicsLocked, DeterministicGenesisAllocations} <= raw.body.passed
              && d.definition == DefinitionDigest(NormalTerms(raw.body.economics.definition.terms))
              && d.allocations == AllocationsDigest(NormalAccounts(raw.body.allocations.accounts))
              && KeepsCustody(c, d.custody)
              && (c.locked ==>
                    IsApprovalOf(a, d.record, [d.definition, d.allocations, CustodyDigest(d.custody)]))
  {
    CustodyFitsIff(NormalBody(raw.body), d);
    ApprovalFromIff(NormalApproval(raw.body.safekeeping.approval), d.record,
                    [d.definition, d.allocations, CustodyDigest(d.custody)]);
  }

  /** A sound custody decision applies exactly when both gates have passed, the decision is about those economics
      and allocations, and it keeps the custody and the approval that are there. */
  lemma CustodyAppliedIff(raw: RawPlan, d: CustodyDecision)
    requires CustodySound(d)
    ensures var (c, a) := (NormalCustody(raw.body.safekeeping.custody), NormalApproval(raw.body.safekeeping.approval));
            ApplyCustody(raw, d).Some? <==>
              && PlanValid(raw) && {NativeEconomicsLocked, DeterministicGenesisAllocations} <= raw.body.passed
              && d.definition == DefinitionDigest(NormalTerms(raw.body.economics.definition.terms))
              && d.allocations == AllocationsDigest(NormalAccounts(raw.body.allocations.accounts))
              && KeepsCustody(c, d.custody)
              && (c.locked ==>
                    IsApprovalOf(a, d.record, [d.definition, d.allocations, CustodyDigest(d.custody)]))
    ensures ApplyCustody(raw, d).Some? ==>
              var b := ApplyCustody(raw, d).value.body;
              && b.safekeeping.custody == d.custody && b.passed == raw.body.passed + {CustodyKeyCeremony}
              && IsApprovalOf(b.safekeeping.approval, d.record,
                              [d.definition, d.allocations, CustodyDigest(d.custody)])
  {
    CustodyAppliesIff(raw, d);
    if PlanValid(raw) {
      SectionsFollowLocks(raw.body);
      CustodyFitsPlanIff(raw, d);
    }
    CustodyLeaves(raw, d);
  }

  // ------------------------------------------------------- blockers and calendar

  lemma ApprovalBlockersAre(b: Body)
    ensures var blockers := ApprovalBlockers(b);
            && (DefinitionOpen in blockers <==> !b.economics.definition.locked)
            && (EconomicsUnapproved in blockers <==> b.economics.approval.status != Approved)
            && (AllocationsOpen in blockers <==> !b.allocations.locked)
            && (CustodyOpen in blockers <==> !b.safekeeping.custody.locked)
            && (CustodyUnapproved in blockers <==> b.safekeeping.approval.status != Approved)
            && (forall g :: GateMissing(g) !in blockers)
  {
  }

  lemma GateBlockersAre(gates: seq<Gate>)
    ensures forall g :: GateMissing(g) in GateBlockers(gates) <==> g in gates
    ensures forall x | x in GateBlockers(gates) :: x.GateMissing?
  {
    forall g | g in gates
      ensures GateMissing(g) in GateBlockers(gates)
    {
      var i :| 0 <= i < |gates| && gates[i] == g;
      assert GateBlockers(gates)[i] == GateMissing(g);
    }
  }

  /** What blocks the ceremony, each blocker exactly when there is something behind it. */
  lemma BlockersAre(p: Plan)
    ensures var (b, blockers) := (p.body, Blockers(p));
            && (DefinitionOpen in blockers <==> !b.economics.definition.locked)
            && (EconomicsUnapproved in blockers <==> b.economics.approval.status != Approved)
            && (AllocationsOpen in blockers <==> !b.allocations.locked)
            && (CustodyOpen in blockers <==> !b.safekeeping.custody.locked)
            && (CustodyUnapproved in blockers <==> b.safekeeping.approval.status != Approved)
            && (forall g :: GateMissing(g) in blockers <==> g !in b.passed)
  {
    var (approvals, gates) := (ApprovalBlockers(p.body), GateBlockers(MissingGates(RequiredGates(), p.body.passed)));
    MissingAre(p.body.passed);
    ApprovalBlockersAre(p.body);
    GateBlockersAre(MissingGates(RequiredGates(), p.body.passed));
    assert forall x :: x in approvals + gates <==> x in approvals || x in gates;
  }

  ghost predicate IsOverdue(m: Milestone, asOf: int) {
    m.status != Completed && m.due < asOf
  }

  lemma {:induction false} OverdueAre(milestones: seq<Milestone>, asOf: int, id: string)
    ensures id in Overdue(milestones, asOf) <==>
              exists i :: 0 <= i < |milestones| && milestones[i].id == id && IsOverdue(milestones[i], asOf)
  {
    if milestones != [] {
      OverdueAre(milestones[..|milestones| - 1], asOf, id);
    }
  }

  /** Where a valid plan stands on a day: ready when every gate has passed; otherwise missed after the first of
      October 2026, at risk when a milestone is late, and on track. */
  lemma ScheduleIs(raw: RawPlan, asOf: int)
    requires PlanValid(raw)
    ensures var state := ScheduleState(PlanOf(raw), asOf);
            var ready := forall g: Gate :: g in raw.body.passed;
            var late := exists i :: 0 <= i < |raw.body.milestones| && IsOverdue(raw.body.milestones[i], asOf);
            && (state == ReadyForCeremony <==> ready)
            && (state == TargetMissed <==> !ready && 20261001 < asOf)
            && (state == AtRisk <==> !ready && asOf <= 20261001 && late)
            && (state == OnTrack <==> !ready && asOf <= 20261001 && !late)
  {
    var p := PlanOf(raw);
    GatesMatchNormal(raw.body);
    ReadyIff(p);
    OverdueIff(p.body.milestones, asOf);
    forall i | 0 <= i < |raw.body.milestones|
      ensures IsOverdue(raw.body.milestones[i], asOf) <==>
              !(p.body.milestones[i].status == Completed || asOf <= p.body.milestones[i].due)
    {
    }
  }
}
