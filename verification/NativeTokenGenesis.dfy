/** The Genesis operations as they run: reading sections one record at a time, and updating a
    copy of the plan in place. */
module NativeTokenGenesis {
  import opened GenesisDecisions
  import opened GenesisPlan
  import opened GenesisRecords
  import opened Prelude

  /** The addresses that have been seen. */
  ghost predicate Seen(seen: set<string>, accounts: seq<Allocation>) {
    forall s :: s in seen <==> s in Addresses(accounts)
  }

  lemma SeenGrows(seen: set<string>, accounts: seq<Allocation>, last: Allocation)
    requires Seen(seen, accounts)
    ensures Seen(seen + {last.address}, accounts + [last])
  {
    AddressesGrow(accounts, last);
  }

  predicate AccountFits(a: Allocation, seen: set<string>) {
    AddressValid(a.address) && Lower(a.address) !in seen && 0 < a.amount && TextValid(a.category, 64)
  }

  /** Reading one account more. */
  lemma ReadOne(accounts: seq<Allocation>, i: nat, seen: set<string>)
    requires i < |accounts| && AccountsValid(accounts[..i]) && Seen(seen, NormalAccounts(accounts[..i]))
    ensures if AccountFits(accounts[i], seen)
            then AccountsValid(accounts[..i + 1])
              && NormalAccounts(accounts[..i + 1]) == NormalAccounts(accounts[..i]) + [NormalAccount(accounts[i])]
              && Seen(seen + {Lower(accounts[i].address)}, NormalAccounts(accounts[..i + 1]))
            else !AccountsValid(accounts)
  {
    assert accounts[..i + 1] == accounts[..i] + [accounts[i]];
    AccountsGrow(accounts[..i], accounts[i]);
    SeenGrows(seen, NormalAccounts(accounts[..i]), NormalAccount(accounts[i]));
    if AccountsValid(accounts) { AccountsOfPrefix(accounts, i + 1); }
  }

  /** The accounts in normal form, or nothing if one is malformed or repeats an address. */
  method ReadAllocations(accounts: seq<Allocation>) returns (r: Option<seq<Allocation>>)
    ensures r == if AccountsValid(accounts) then Some(NormalAccounts(accounts)) else None
  {
    var result: seq<Allocation> := [];
    var seen: set<string> := {};
    for i := 0 to |accounts|
      invariant AccountsValid(accounts[..i]) && result == NormalAccounts(accounts[..i])
      invariant Seen(seen, result)
    {
      var account := accounts[i];
      ReadOne(accounts, i, seen);
      if !AddressValid(account.address) || Lower(account.address) in seen { return None; }
      if account.amount <= 0 || !TextValid(account.category, 64) { return None; }
      seen := seen + {Lower(account.address)};
      result := result + [NormalAccount(account)];
    }
    assert accounts[..|accounts|] == accounts;
    return Some(result);
  }

  lemma AddressesGrow(accounts: seq<Allocation>, last: Allocation)
    ensures Addresses(accounts + [last]) == Addresses(accounts) + [last.address]
  {
  }

  lemma LowerAllGrows(names: seq<string>, last: string)
    ensures LowerAll(names + [last]) == LowerAll(names) + [Lower(last)]
  {
  }

  lemma DistinctGrows(names: seq<string>, last: string)
    ensures Distinct(names + [last]) <==> Distinct(names) && last !in names
  {
    var more := names + [last];
    if Distinct(more) {
      forall i | 0 <= i < |names|
        ensures names[i] != last
      {
        assert more[i] != more[|names|];
      }
      forall i, j | 0 <= i < j < |names|
        ensures names[i] != names[j]
      {
        assert more[i] != more[j];
      }
    }
  }

  lemma AddressesValidGrow(names: seq<string>, last: string)
    ensures AddressesValid(names + [last]) <==>
            AddressesValid(names) && AddressValid(last) && Lower(last) !in LowerAll(names)
  {
    LowerAllGrows(names, last);
    DistinctGrows(LowerAll(names), Lower(last));
    assert (names + [last])[|names|] == last;
    assert forall i | 0 <= i < |names| :: (names + [last])[i] == names[i];
  }

  lemma EachGrows(accounts: seq<Allocation>, last: Allocation)
    ensures (forall i | 0 <= i < |accounts + [last]| :: AmountFits((accounts + [last])[i]))
       <==> (forall i | 0 <= i < |accounts| :: AmountFits(accounts[i])) && AmountFits(last)
  {
    var more := accounts + [last];
    assert more[|accounts|] == last;
    assert forall i | 0 <= i < |accounts| :: more[i] == accounts[i];
  }

  predicate AmountFits(a: Allocation) {
    0 < a.amount && TextValid(a.category, 64)
  }

  lemma AccountsValidIs(accounts: seq<Allocation>)
    ensures AccountsValid(accounts)
       <==> AddressesValid(Addresses(accounts)) && forall i | 0 <= i < |accounts| :: AmountFits(accounts[i])
  {
  }

  lemma NormalAccountsGrow(accounts: seq<Allocation>, last: Allocation)
    ensures NormalAccounts(accounts + [last]) == NormalAccounts(accounts) + [NormalAccount(last)]
    ensures Addresses(NormalAccounts(accounts)) == LowerAll(Addresses(accounts))
  {
    assert (accounts + [last])[..|accounts|] == accounts;
  }

  lemma AccountsGrow(accounts: seq<Allocation>, last: Allocation)
    ensures AccountsValid(accounts + [last]) <==>
              && AccountsValid(accounts) && AddressValid(last.address) &&
                 Lower(last.address) !in Addresses(NormalAccounts(accounts))
              && 0 < last.amount && TextValid(last.category, 64)
    ensures NormalAccounts(accounts + [last]) == NormalAccounts(accounts) + [NormalAccount(last)]
  {
    AddressesGrow(accounts, last);
    AddressesValidGrow(Addresses(accounts), last.address);
    NormalAccountsGrow(accounts, last);
    EachGrows(accounts, last);
    AccountsValidIs(accounts + [last]);
    AccountsValidIs(accounts);
  }

  lemma {:induction false} AccountsOfPrefix(accounts: seq<Allocation>, n: nat)
    requires AccountsValid(accounts) && n <= |accounts|
    ensures AccountsValid(accounts[..n])
    decreases |accounts|
  {
    if n == |accounts| {
      assert accounts[..n] == accounts;
    } else {
      var m := |accounts| - 1;
      assert accounts[..m] + [accounts[m]] == accounts;
      AccountsGrow(accounts[..m], accounts[m]);
      AccountsOfPrefix(accounts[..m], n);
      assert accounts[..m][..n] == accounts[..n];
    }
  }

  /** The milestones in normal form, or nothing if one departs from the fixed plan or claims a
      gate that has not passed. */
  method ReadMilestones(milestones: seq<Milestone>, passed: set<Gate>) returns (r: Option<seq<Milestone>>)
    ensures r == if MilestonesValid(milestones, passed) then Some(NormalMilestones(milestones)) else None
  {
    if |milestones| != |LockedMilestones()| { return None; }
    var result: seq<Milestone> := [];
    for i := 0 to |milestones|
      invariant result == NormalMilestones(milestones[..i])
      invariant forall j | 0 <= j < i :: MilestoneValid(j, milestones[j], passed)
    {
      var m := milestones[i];
      assert milestones[..i + 1][..i] == milestones[..i];
      if !MilestoneValid(i, m, passed) { return None; }
      result := result + [m.(owner := Strip(m.owner))];
    }
    assert milestones[..|milestones|] == milestones;
    return Some(result);
  }

  /** Marks the named milestone, looking from the front and stopping at the first. */
  method MarkMilestone(milestones: seq<Milestone>, id: string) returns (r: seq<Milestone>)
    ensures r == MarkCompleted(milestones, id)
  {
    r := milestones;
    for i := 0 to |milestones|
      invariant r == milestones
      invariant forall j | 0 <= j < i :: milestones[j].id != id
    {
      if milestones[i].id == id {
        MarkedAt(milestones, id, i);
        r := milestones[i := milestones[i].(status := Completed)];
        return;
      }
    }
    NothingToMark(milestones, id);
  }

  lemma {:induction false} NothingToMark(milestones: seq<Milestone>, id: string)
    requires forall i | 0 <= i < |milestones| :: milestones[i].id != id
    ensures MarkCompleted(milestones, id) == milestones
  {
    if milestones != [] {
      NothingToMark(milestones[1..], id);
      assert milestones == [milestones[0]] + milestones[1..];
    }
  }

  method ApplyEconomicsDecision(raw: RawPlan, d: EconomicsDecision) returns (r: Option<RawPlan>)
    ensures r == ApplyEconomics(raw, d)
  {
    if !PlanValid(raw) || !EconomicsFits(NormalBody(raw.body), d) { return None; }
    var updated := raw.body;
    updated := updated.(economics := Economics(Definition(true, d.terms), EconomicsApproval(d)));
    updated := updated.(passed := updated.passed + {NativeEconomicsLocked});
    var milestones := MarkMilestone(updated.milestones, LockedMilestones()[0].0);
    updated := updated.(milestones := milestones);
    if !PlanValid(RawPlan(raw.header, updated)) { return None; }
    return Some(RawPlan(raw.header, updated));
  }

  method ApplyAllocationDecision(raw: RawPlan, d: AllocationDecision) returns (r: Option<RawPlan>)
    ensures r == ApplyAllocations(raw, d)
  {
    if !PlanValid(raw) || !AllocationsFit(NormalBody(raw.body), d) { return None; }
    var updated := raw.body;
    updated := updated.(allocations := Allocations(true, d.accounts, AllocationApproval(d)));
    updated := updated.(passed := updated.passed + {DeterministicGenesisAllocations});
    var milestones := MarkMilestone(updated.milestones, LockedMilestones()[1].0);
    updated := updated.(milestones := milestones);
    if !PlanValid(RawPlan(raw.header, updated)) { return None; }
    return Some(RawPlan(raw.header, updated));
  }

  method ApplyCustodyDecision(raw: RawPlan, d: CustodyDecision) returns (r: Option<RawPlan>)
    ensures r == ApplyCustody(raw, d)
  {
    if !PlanValid(raw) || !CustodyFits(NormalBody(raw.body), d) { return None; }
    var updated := raw.body;
    updated := updated.(safekeeping := Safekeeping(d.custody.(locked := true), CustodyApproval(d)));
    updated := updated.(passed := updated.passed + {CustodyKeyCeremony});
    var milestones := MarkMilestone(updated.milestones, LockedMilestones()[2].0);
    updated := updated.(milestones := milestones);
    if !PlanValid(RawPlan(raw.header, updated)) { return None; }
    return Some(RawPlan(raw.header, updated));
  }
}
