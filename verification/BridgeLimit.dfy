/** When the daily limit holds, exactly, and that the bound on executed and ready value is
    reached. */
module BridgeLimit {
  import opened Bridge
  import opened BridgeOvershoot
  import opened Prelude
  import opened Weights

  predicate Prepares(e: Event) {
    e.On? && e.action.Prepare?
  }

  /** Nothing is prepared. */
  ghost predicate Quiet(es: seq<Event>) {
    forall n | 0 <= n < |es| :: !Prepares(es[n])
  }

  /** Whatever happens next, as long as nothing more is prepared, the executed value stays
      within the daily limit. */
  ghost predicate LimitIsSafe(p: Policy, s: State) {
    forall es | Quiet(es) :: Run(p, s, es).executedValue <= p.dailyLimit
  }

  lemma {:induction false} QuietRaisesNothing(p: Policy, s: State, es: seq<Event>)
    requires p.ValidLimits() && Invariant(p, s) && Quiet(es)
    ensures Invariant(p, Run(p, s, es)) && Exposure(Run(p, s, es)) <= Exposure(s)
  {
    if es != [] {
      var (before, last) := (es[..|es| - 1], es[|es| - 1]);
      QuietRaisesNothing(p, s, before);
      StepKeepsInvariant(p, Run(p, s, before), last);
      OtherStepsRaiseNothing(p, Run(p, s, before), last);
    }
  }

  ghost function Zeros(n: nat): (s: string)
    ensures |s| == n && forall i | 0 <= i < n :: s[i] == '0'
  {
    if n == 0 then "" else Zeros(n - 1) + "0"
  }

  lemma ZerosAreAHash()
    ensures IsTransactionHash(Zeros(64))
  {
  }

  ghost function Execution(d: Digest): Event {
    On(d, Execute(Zeros(64)))
  }

  lemma ReadyCanExecute(p: Policy, s: State, d: Digest)
    requires d in InState(s.records, ExecutionReady)
    ensures ActionRefusal(p, s, d, Execution(d).action).None?
  {
    ZerosAreAHash();
  }

  lemma ExecutionKeepsExposure(p: Policy, s: State, d: Digest, transaction: string)
    requires d in InState(s.records, ExecutionReady) && 0 < s.records[d].message.value
    ensures var s' := Act(p, s, d, Execute(transaction));
            && Exposure(s') == Exposure(s)
            && InState(s'.records, ExecutionReady) == InState(s.records, ExecutionReady) - {d}
  {
    ValueMoves(s.records, d, Advance(p, d, s.records[d], Execute(transaction)), ExecutionReady);
  }

  lemma ExecuteReady(p: Policy, s: State, d: Digest)
    requires p.ValidLimits() && Invariant(p, s) && d in InState(s.records, ExecutionReady)
    ensures var s' := Step(p, s, Execution(d));
            && Invariant(p, s') && Exposure(s') == Exposure(s)
            && InState(s'.records, ExecutionReady) == InState(s.records, ExecutionReady) - {d}
  {
    assert SoundRecord(p, d, s.records[d]);
    ReadyCanExecute(p, s, d);
    StepKeepsInvariant(p, s, Execution(d));
    ExecutionKeepsExposure(p, s, d, Zeros(64));
  }

  lemma ExecuteFirst(p: Policy, s: State, d: Digest, rest: seq<Event>)
    requires Quiet(rest)
    ensures Quiet([Execution(d)] + rest)
    ensures Run(p, s, [Execution(d)] + rest) == Run(p, Step(p, s, Execution(d)), rest)
  {
    RunAppend(p, s, [Execution(d)], rest);
    OneStep(p, s, Execution(d));
  }

  /** Everything that is ready can be executed. */
  lemma {:induction false} ExecuteEverything(p: Policy, s: State) returns (es: seq<Event>)
    requires p.ValidLimits() && Invariant(p, s)
    ensures Quiet(es) && Run(p, s, es).executedValue == Exposure(s)
    decreases |InState(s.records, ExecutionReady)|
  {
    var ready := InState(s.records, ExecutionReady);
    if ready == {} {
      es := [];
    } else {
      var d :| d in ready;
      ExecuteReady(p, s, d);
      var rest := ExecuteEverything(p, Step(p, s, Execution(d)));
      ExecuteFirst(p, s, d, rest);
      es := [Execution(d)] + rest;
    }
  }

  /** The daily limit is safe exactly while executed and ready value together are within it. */
  lemma LimitIsSafeIff(p: Policy, s: State)
    requires p.ValidLimits() && Invariant(p, s)
    ensures LimitIsSafe(p, s) <==> Exposure(s) <= p.dailyLimit
  {
    if Exposure(s) <= p.dailyLimit {
      forall es | Quiet(es)
        ensures Run(p, s, es).executedValue <= p.dailyLimit
      {
        QuietRaisesNothing(p, s, es);
      }
    } else {
      var es := ExecuteEverything(p, s);
      assert Quiet(es) && Run(p, s, es).executedValue > p.dailyLimit;
    }
  }

  /** The check that preparing would need: what is executed, what is ready and the new value. */
  ghost predicate Fits(p: Policy, s: State, d: Digest)
    requires d in s.records
  {
    s.executedValue + ValueIn(s.records, ExecutionReady) + s.records[d].message.value <= p.dailyLimit
  }

  lemma PrepareAdds(p: Policy, s: State, d: Digest)
    requires p.ValidLimits() && Invariant(p, s) && ActionRefusal(p, s, d, Prepare).None?
    ensures var s' := Step(p, s, On(d, Prepare));
            && Invariant(p, s') && Exposure(s') == Exposure(s) + s.records[d].message.value
            && |InState(s'.records, ExecutionReady)| == |InState(s.records, ExecutionReady)| + 1
  {
    assert SoundRecord(p, d, s.records[d]);
    ActKeepsInvariant(p, s, d, Prepare);
    ReadyGrows(s.records, d);
  }

  /** A preparation that the code accepts leaves the limit safe exactly when it fits beside
      everything that is already ready, which is what the code does not check. */
  lemma PrepareIsSafeIff(p: Policy, s: State, d: Digest)
    requires p.ValidLimits() && Invariant(p, s) && ActionRefusal(p, s, d, Prepare).None?
    ensures LimitIsSafe(p, Step(p, s, On(d, Prepare))) <==> Fits(p, s, d)
  {
    PrepareAdds(p, s, d);
    LimitIsSafeIff(p, Step(p, s, On(d, Prepare)));
  }

  /** The event prepares nothing, or something that fits. */
  ghost predicate Careful(p: Policy, s: State, e: Event) {
    Prepares(e) && ActionRefusal(p, s, e.digest, e.action).None? ==> Fits(p, s, e.digest)
  }

  ghost predicate CarefulAt(p: Policy, paused: bool, es: seq<Event>, n: nat)
    requires n < |es|
  {
    Careful(p, Run(p, Start(paused), es[..n]), es[n])
  }

  ghost predicate CarefulRun(p: Policy, paused: bool, es: seq<Event>) {
    forall n | 0 <= n < |es| :: CarefulAt(p, paused, es, n)
  }

  lemma CarefulStep(p: Policy, s: State, e: Event)
    requires p.ValidLimits() && Invariant(p, s) && Exposure(s) <= p.dailyLimit
    ensures Careful(p, s, e) <==> Exposure(Step(p, s, e)) <= p.dailyLimit
  {
    if Prepares(e) && ActionRefusal(p, s, e.digest, e.action).None? {
      PrepareAdds(p, s, e.digest);
    } else {
      OtherStepsRaiseNothing(p, s, e);
    }
  }

  ghost predicate AlwaysWithin(p: Policy, paused: bool, es: seq<Event>) {
    forall n | 0 <= n <= |es| :: Exposure(Run(p, Start(paused), es[..n])) <= p.dailyLimit
  }

  lemma AlwaysWithinSplits(p: Policy, paused: bool, es: seq<Event>)
    requires es != []
    ensures AlwaysWithin(p, paused, es) <==>
            AlwaysWithin(p, paused, es[..|es| - 1]) && Exposure(Run(p, Start(paused), es)) <= p.dailyLimit
  {
    var before := es[..|es| - 1];
    assert es[..|es|] == es;
    assert forall n | 0 <= n <= |before| :: before[..n] == es[..n];
  }

  lemma CarefulInPrefix(p: Policy, paused: bool, es: seq<Event>, before: seq<Event>, n: nat)
    requires before <= es && n < |before|
    ensures CarefulAt(p, paused, es, n) <==> CarefulAt(p, paused, before, n)
  {
    assert es[..n] == before[..n];
  }

  lemma CarefulRunSplits(p: Policy, paused: bool, es: seq<Event>)
    requires es != []
    ensures var before := es[..|es| - 1];
            CarefulRun(p, paused, es) <==> CarefulRun(p, paused, before) && CarefulAt(p, paused, es, |es| - 1)
  {
    var before := es[..|es| - 1];
    forall n | 0 <= n < |before|
      ensures CarefulAt(p, paused, es, n) <==> CarefulAt(p, paused, before, n)
    {
      CarefulInPrefix(p, paused, es, before, n);
    }
  }

  lemma {:induction false} CarefulIsWithin(p: Policy, paused: bool, es: seq<Event>)
    requires p.ValidLimits()
    ensures CarefulRun(p, paused, es) <==> AlwaysWithin(p, paused, es)
  {
    if es == [] {
      assert InState(Start(paused).records, ExecutionReady) == {};
    } else {
      var (before, last) := (es[..|es| - 1], es[|es| - 1]);
      CarefulIsWithin(p, paused, before);
      AlwaysWithinSplits(p, paused, es);
      CarefulRunSplits(p, paused, es);
      if AlwaysWithin(p, paused, before) {
        assert before[..|before|] == before;
        RunKeepsInvariant(p, paused, before);
        CarefulStep(p, Run(p, Start(paused), before), last);
      }
    }
  }

  /** Over whole runs: the daily limit is safe at every point exactly when every accepted
      preparation fitted beside what was ready. */
  lemma DailyLimitIff(p: Policy, paused: bool, es: seq<Event>)
    requires p.ValidLimits()
    ensures (forall n | 0 <= n <= |es| :: LimitIsSafe(p, Run(p, Start(paused), es[..n]))) <==> CarefulRun(p, paused, es)
  {
    forall n | 0 <= n <= |es|
      ensures LimitIsSafe(p, Run(p, Start(paused), es[..n])) <==>
              Exposure(Run(p, Start(paused), es[..n])) <= p.dailyLimit
    {
      RunKeepsInvariant(p, paused, es[..n]);
      LimitIsSafeIff(p, Run(p, Start(paused), es[..n]));
    }
    CarefulIsWithin(p, paused, es);
  }
}
