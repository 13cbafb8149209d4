/** The bound on executed and ready value is reached by a run, for every policy and every
    number of records that are ready at once. */
module BridgeAttained {
  import opened Bridge
  import opened BridgeLimit
  import opened BridgeOvershoot
  import opened Prelude

  function Worth(ms: seq<Message>): int {
    if ms == [] then 0 else ms[0].value + Worth(ms[1..])
  }

  /** These messages can still be observed one after another. */
  ghost predicate Fresh(p: Policy, s: State, ms: seq<Message>) {
    && (forall i | 0 <= i < |ms| :: ObserveRefusal(p, s, ms[i]).None? && 0 < ms[i].value <= p.perTransactionLimit)
    && (forall i, j | 0 <= i < j < |ms| ::
          ms[i].sourceTransaction != ms[j].sourceTransaction && NonceKey(ms[i]) != NonceKey(ms[j]))
  }

  ghost function Ready(s: State): set<Digest> {
    InState(s.records, ExecutionReady)
  }

  /** One more message has been used up; the rest of the record book is as it was. */
  ghost predicate UsedUp(s: State, s': State, m: Message) {
    && s'.records.Keys == s.records.Keys + {DigestOf(m)}
    && s'.usedTransactions == s.usedTransactions + {m.sourceTransaction}
    && s'.usedNonces == s.usedNonces + {NonceKey(m)}
    && s'.paused == s.paused
  }

  lemma OthersStayFresh(p: Policy, s: State, s': State, ms: seq<Message>)
    requires ms != [] && Fresh(p, s, ms) && UsedUp(s, s', ms[0])
    ensures Fresh(p, s', ms[1..])
  {
    forall i | 0 <= i < |ms[1..]|
      ensures ObserveRefusal(p, s', ms[1..][i]).None?
    {
      assert ms[1..][i] == ms[i + 1];
      assert ObserveRefusal(p, s, ms[i + 1]).None?;
    }
  }

  // ----------------------------------------------------- how many are ever ready

  ghost predicate AtMostFrom(p: Policy, s: State, es: seq<Event>, m: nat) {
    forall n | 0 <= n <= |es| :: |Ready(Run(p, s, es[..n]))| <= m
  }

  lemma AtMostAppend(p: Policy, s: State, a: seq<Event>, b: seq<Event>, m: nat)
    requires AtMostFrom(p, s, a, m) && AtMostFrom(p, Run(p, s, a), b, m)
    ensures AtMostFrom(p, s, a + b, m)
  {
    forall n | 0 <= n <= |a + b|
      ensures |Ready(Run(p, s, (a + b)[..n]))| <= m
    {
      if n <= |a| {
        assert (a + b)[..n] == a[..n];
      } else {
        assert (a + b)[..n] == a + b[..n - |a|];
        RunAppend(p, s, a, b[..n - |a|]);
      }
    }
  }

  lemma AtMostOne(p: Policy, s: State, e: Event, m: nat)
    requires |Ready(s)| <= m && |Ready(Step(p, s, e))| <= m
    ensures AtMostFrom(p, s, [e], m)
  {
    OneStep(p, s, e);
    assert [e][..0] == [] && [e][..1] == [e];
  }

  lemma QuietStepReadiesNothing(p: Policy, s: State, e: Event)
    requires !Prepares(e)
    ensures Ready(Step(p, s, e)) <= Ready(s)
  {
    if e.On? && ActionRefusal(p, s, e.digest, e.action).None? { AdvanceMoves(p, s, e.digest, e.action); }
  }

  lemma {:induction false} QuietReadiesNothing(p: Policy, s: State, es: seq<Event>)
    requires Quiet(es)
    ensures Ready(Run(p, s, es)) <= Ready(s)
  {
    if es != [] {
      QuietReadiesNothing(p, s, es[..|es| - 1]);
      QuietStepReadiesNothing(p, Run(p, s, es[..|es| - 1]), es[|es| - 1]);
    }
  }

  lemma QuietAtMost(p: Policy, s: State, es: seq<Event>)
    requires Quiet(es)
    ensures AtMostFrom(p, s, es, |Ready(s)|)
  {
    forall n | 0 <= n <= |es|
      ensures |Ready(Run(p, s, es[..n]))| <= |Ready(s)|
    {
      QuietReadiesNothing(p, s, es[..n]);
      assert |Ready(s) - Ready(Run(p, s, es[..n]))| == |Ready(s)| - |Ready(Run(p, s, es[..n]))|;
    }
  }

  lemma AtMostWeaker(p: Policy, s: State, es: seq<Event>, m: nat, m': nat)
    requires AtMostFrom(p, s, es, m) && m <= m'
    ensures AtMostFrom(p, s, es, m')
  {
  }

  lemma {:induction false} AttestingIsQuiet(d: Digest, relayers: seq<string>, signature: string)
    ensures Quiet(Attesting(d, relayers, signature))
  {
    if relayers != [] { AttestingIsQuiet(d, relayers[..|relayers| - 1], signature); }
  }

  // ---------------------------------------------------------- preparing a message

  ghost predicate Prepared(s: State, s': State, m: Message) {
    && UsedUp(s, s', m)
    && s'.executedValue == s.executedValue
    && DigestOf(m) in Ready(s') && s'.records[DigestOf(m)].message == m
    && Ready(s') == Ready(s) + {DigestOf(m)}
    && |Ready(s')| == |Ready(s)| + 1
    && ValueIn(s'.records, ExecutionReady) == ValueIn(s.records, ExecutionReady) + m.value
  }

  lemma BroughtIsNotReady(s: State, s1: State, m: Message)
    requires DigestOf(m) !in s.records && Brought(s, s1, m)
    ensures Ready(s1) == Ready(s) && ValueIn(s1.records, ExecutionReady) == ValueIn(s.records, ExecutionReady)
    ensures UsedUp(s, s1, m)
  {
    ValueKept(s.records, DigestOf(m), s1.records[DigestOf(m)], ExecutionReady);
  }

  lemma PrepareEffect(p: Policy, s: State, d: Digest)
    requires d in s.records && s.records[d].state == Attested && 0 < s.records[d].message.value <= p.perTransactionLimit
    requires !s.paused && s.executedValue + s.records[d].message.value <= p.dailyLimit
    ensures var s' := Step(p, s, On(d, Prepare));
            && s' == s.(records := s.records[d := s.records[d].(state := ExecutionReady)])
            && Ready(s') == Ready(s) + {d} && |Ready(s')| == |Ready(s)| + 1
            && ValueIn(s'.records, ExecutionReady) == ValueIn(s.records, ExecutionReady) + s.records[d].message.value
  {
    assert ActionRefusal(p, s, d, Prepare).None?;
    ReadyGrows(s.records, d);
    ValueMoves(s.records, d, s.records[d].(state := ExecutionReady), ExecutionReady);
  }

  lemma PreparedAfter(p: Policy, s: State, s1: State, m: Message)
    requires DigestOf(m) !in s.records && 0 < m.value <= p.perTransactionLimit && Brought(s, s1, m)
    requires !s.paused && s.executedValue + m.value <= p.dailyLimit
    ensures Prepared(s, Step(p, s1, On(DigestOf(m), Prepare)), m)
  {
    BroughtIsNotReady(s, s1, m);
    PrepareEffect(p, s1, DigestOf(m));
  }

  lemma BringingIsQuiet(p: Policy, m: Message, relayers: seq<string>, signature: string)
    ensures Quiet(Bringing(p, m, relayers, signature))
  {
    AttestingIsQuiet(DigestOf(m), relayers, signature);
  }

  lemma PreparingWorks(p: Policy, s: State, m: Message, relayers: seq<string>, signature: string)
    returns (es: seq<Event>)
    requires p.ValidLimits() && IsSignatureText(signature) && Quorate(p, relayers)
    requires ObserveRefusal(p, s, m).None? && 0 < m.value <= p.perTransactionLimit
    requires !s.paused && s.executedValue + m.value <= p.dailyLimit
    ensures Prepared(s, Run(p, s, es), m) && AtMostFrom(p, s, es, |Ready(s)| + 1)
  {
    var (bring, e) := (Bringing(p, m, relayers, signature), On(DigestOf(m), Prepare));
    es := bring + [e];
    var s1 := Run(p, s, bring);
    BringingWorks(p, s, m, relayers, signature);
    PreparedAfter(p, s, s1, m);
    RunAppend(p, s, bring, [e]);
    OneStep(p, s1, e);
    BringingIsQuiet(p, m, relayers, signature);
    QuietAtMost(p, s, bring);
    QuietReadiesNothing(p, s, bring);
    AtMostWeaker(p, s, bring, |Ready(s)|, |Ready(s)| + 1);
    assert AtMostFrom(p, s, bring, |Ready(s)|) && bring[..|bring|] == bring;
    AtMostOne(p, s1, e, |Ready(s)| + 1);
    AtMostAppend(p, s, bring, [e], |Ready(s)| + 1);
  }

  // ------------------------------------------------------- executing a message

  ghost predicate DoneWith(s: State, s': State, m: Message) {
    && UsedUp(s, s', m)
    && s'.executedValue == s.executedValue + m.value
    && Ready(s') == Ready(s)
    && ValueIn(s'.records, ExecutionReady) == ValueIn(s.records, ExecutionReady)
  }

  lemma ExecutionEffect(p: Policy, s: State, d: Digest)
    requires d in Ready(s) && 0 < s.records[d].message.value
    ensures var s' := Step(p, s, Execution(d));
            && s'.records.Keys == s.records.Keys
            && s'.usedTransactions == s.usedTransactions && s'.usedNonces == s.usedNonces && s'.paused == s.paused
            && s'.executedValue == s.executedValue + s.records[d].message.value
            && Ready(s') == Ready(s) - {d} && Exposure(s') == Exposure(s)
  {
    ReadyCanExecute(p, s, d);
    ExecutionKeepsExposure(p, s, d, Zeros(64));
  }

  lemma DoneAfter(s: State, s1: State, s2: State, m: Message)
    requires DigestOf(m) !in Ready(s) && Prepared(s, s1, m)
    requires s2.records.Keys == s1.records.Keys
    requires s2.usedTransactions == s1.usedTransactions && s2.usedNonces == s1.usedNonces && s2.paused == s1.paused
    requires s2.executedValue == s1.executedValue + m.value
    requires Ready(s2) == Ready(s1) - {DigestOf(m)} && Exposure(s2) == Exposure(s1)
    ensures DoneWith(s, s2, m)
  {
    assert Ready(s) + {DigestOf(m)} - {DigestOf(m)} == Ready(s);
  }

  lemma ExecutingWorks(p: Policy, s: State, m: Message, relayers: seq<string>, signature: string)
    returns (es: seq<Event>)
    requires p.ValidLimits() && IsSignatureText(signature) && Quorate(p, relayers)
    requires ObserveRefusal(p, s, m).None? && 0 < m.value <= p.perTransactionLimit
    requires !s.paused && s.executedValue + m.value <= p.dailyLimit
    ensures DoneWith(s, Run(p, s, es), m) && AtMostFrom(p, s, es, |Ready(s)| + 1)
  {
    var prepare := PreparingWorks(p, s, m, relayers, signature);
    var (s1, e) := (Run(p, s, prepare), Execution(DigestOf(m)));
    ExecutionEffect(p, s1, DigestOf(m));
    DoneAfter(s, s1, Step(p, s1, e), m);
    es := prepare + [e];
    RunAppend(p, s, prepare, [e]);
    OneStep(p, s1, e);
    AtMostOne(p, s1, e, |Ready(s)| + 1);
    AtMostAppend(p, s, prepare, [e], |Ready(s)| + 1);
  }

  lemma FirstIsFresh(p: Policy, s: State, ms: seq<Message>)
    requires ms != [] && Fresh(p, s, ms)
    ensures ObserveRefusal(p, s, ms[0]).None? && 0 < ms[0].value <= p.perTransactionLimit
  {
  }

  /** The first message executed, with the others still fresh. */
  lemma ExecuteHead(p: Policy, s: State, ms: seq<Message>, relayers: seq<string>, signature: string)
    returns (es: seq<Event>)
    requires p.ValidLimits() && IsSignatureText(signature) && Quorate(p, relayers)
    requires ms != [] && Fresh(p, s, ms) && !s.paused && s.executedValue + ms[0].value <= p.dailyLimit
    ensures DoneWith(s, Run(p, s, es), ms[0]) && Fresh(p, Run(p, s, es), ms[1..])
    ensures AtMostFrom(p, s, es, |Ready(s)| + 1)
  {
    FirstIsFresh(p, s, ms);
    es := ExecutingWorks(p, s, ms[0], relayers, signature);
    OthersStayFresh(p, s, Run(p, s, es), ms);
  }

  /** All these messages are ready, and none was executed. */
  ghost predicate AllReady(s: State, s': State, ms: seq<Message>) {
    && s'.executedValue == s.executedValue
    && ValueIn(s'.records, ExecutionReady) == ValueIn(s.records, ExecutionReady) + Worth(ms)
  }

  /** Messages that fit one by one made ready together. */
  lemma {:induction false} PrepareTogether(p: Policy, s: State, ms: seq<Message>, relayers: seq<string>,
                                           signature: string)
    returns (es: seq<Event>)
    requires p.ValidLimits() && IsSignatureText(signature) && Quorate(p, relayers)
    requires Fresh(p, s, ms) && !s.paused && s.executedValue + p.perTransactionLimit <= p.dailyLimit
    ensures AllReady(s, Run(p, s, es), ms) && AtMostFrom(p, s, es, |Ready(s)| + |ms|)
    decreases |ms|
  {
    if ms == [] {
      es := [];
    } else {
      FirstIsFresh(p, s, ms);
      var first := PreparingWorks(p, s, ms[0], relayers, signature);
      var s1 := Run(p, s, first);
      OthersStayFresh(p, s, s1, ms);
      var more := PrepareTogether(p, s1, ms[1..], relayers, signature);
      es := first + more;
      RunAppend(p, s, first, more);
      AtMostWeaker(p, s, first, |Ready(s)| + 1, |Ready(s)| + |ms|);
      AtMostAppend(p, s, first, more, |Ready(s)| + |ms|);
    }
  }

  lemma ValuesArePositive(p: Policy, s: State, ms: seq<Message>)
    requires Fresh(p, s, ms)
    ensures forall i | 0 <= i < |ms| :: 0 < ms[i].value
  {
  }

  lemma {:induction false} WorthNotNegative(ms: seq<Message>)
    requires forall i | 0 <= i < |ms| :: 0 < ms[i].value
    ensures 0 <= Worth(ms)
  {
    if ms != [] { WorthNotNegative(ms[1..]); }
  }

  lemma WorthOfFirst(ms: seq<Message>, count: nat)
    requires 0 < count <= |ms| && forall i | 0 <= i < |ms| :: 0 < ms[i].value
    ensures Worth(ms[..count]) == ms[0].value + Worth(ms[1..][..count - 1])
    ensures ms[0].value <= Worth(ms[..count])
  {
    assert ms[..count][1..] == ms[1..][..count - 1];
    WorthNotNegative(ms[1..][..count - 1]);
  }

  /** The first messages executed one after another, and the others then made ready together. */
  lemma {:induction false} ExecuteThenPrepare(p: Policy, s: State, ms: seq<Message>, count: nat, relayers: seq<string>,
                                              signature: string) returns (es: seq<Event>)
    requires p.ValidLimits() && IsSignatureText(signature) && Quorate(p, relayers)
    requires Fresh(p, s, ms) && !s.paused && count < |ms|
    requires s.executedValue + Worth(ms[..count]) + p.perTransactionLimit <= p.dailyLimit
    ensures Exposure(Run(p, s, es)) == Exposure(s) + Worth(ms[..count]) + Worth(ms[count..])
    ensures AtMostFrom(p, s, es, |Ready(s)| + (|ms| - count))
    decreases count
  {
    if count == 0 {
      assert ms[0..] == ms;
      es := PrepareTogether(p, s, ms, relayers, signature);
    } else {
      ValuesArePositive(p, s, ms);
      WorthOfFirst(ms, count);
      var first := ExecuteHead(p, s, ms, relayers, signature);
      var s1 := Run(p, s, first);
      assert ms[1..][count - 1..] == ms[count..];
      var more := ExecuteThenPrepare(p, s1, ms[1..], count - 1, relayers, signature);
      es := first + more;
      RunAppend(p, s, first, more);
      AtMostWeaker(p, s, first, |Ready(s)| + 1, |Ready(s)| + (|ms| - count));
      AtMostAppend(p, s, first, more, |Ready(s)| + (|ms| - count));
    }
  }

  lemma {:induction false} WorthOfEqual(ms: seq<Message>, value: int)
    requires forall i | 0 <= i < |ms| :: ms[i].value == value
    ensures Worth(ms) == |ms| * value
  {
    if ms != [] {
      WorthOfEqual(ms[1..], value);
      assert |ms| * value == (|ms| - 1) * value + value;
    }
  }

  /** The bound is reached: when earlier messages use up all of the daily limit but one
      per-transaction limit, m further messages of the per-transaction limit can be ready at
      once, and executed and ready value together are exactly the bound for m. */
  lemma BoundIsAttained(p: Policy, earlier: seq<Message>, last: seq<Message>, signature: string)
    returns (es: seq<Event>)
    requires p.ValidLimits() && IsSignatureText(signature) && last != []
    requires Fresh(p, Start(false), earlier + last)
    requires Worth(earlier) == p.dailyLimit - p.perTransactionLimit
    requires forall i | 0 <= i < |last| :: last[i].value == p.perTransactionLimit
    ensures AtMostReady(p, false, es, |last|)
    ensures Exposure(Run(p, Start(false), es)) == p.dailyLimit + (|last| - 1) * p.perTransactionLimit
  {
    var relayers := SomeQuorum(p);
    var s := Start(false);
    assert Ready(s) == {} && (earlier + last)[..|earlier|] == earlier && (earlier + last)[|earlier|..] == last;
    es := ExecuteThenPrepare(p, s, earlier + last, |earlier|, relayers, signature);
    WorthOfEqual(last, p.perTransactionLimit);
    assert |last| * p.perTransactionLimit == (|last| - 1) * p.perTransactionLimit + p.perTransactionLimit;
  }
}
