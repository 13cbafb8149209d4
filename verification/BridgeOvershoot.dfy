/** The daily limit is checked when a message is prepared but counted when it is executed:
    two messages ready together can be executed beyond it. */
module BridgeOvershoot {
  import opened Bridge
  import opened Ordering
  import opened Prelude

  lemma {:induction false} RunAppend(p: Policy, s: State, a: seq<Event>, b: seq<Event>)
    ensures Run(p, s, a + b) == Run(p, Run(p, s, a), b)
  {
    if b == [] {
      assert a + b == a;
    } else {
      var n := |b| - 1;
      assert (a + b)[..|a + b| - 1] == a + b[..n];
      RunAppend(p, s, a, b[..n]);
    }
  }

  /** Attestations of the message by the given relayers, one after another. */
  ghost function Attesting(d: Digest, relayers: seq<string>, signature: string): seq<Event> {
    if relayers == [] then []
    else Attesting(d, relayers[..|relayers| - 1], signature)
         + [On(d, Attest(relayers[|relayers| - 1], "key", signature, true))]
  }

  /** Nothing but the record of `d` differs. */
  ghost predicate OnlyRecord(s: State, s': State, d: Digest) {
    && d in s'.records
    && s'.records == s.records[d := s'.records[d]]
    && s'.usedTransactions == s.usedTransactions && s'.usedNonces == s.usedNonces
    && s'.executedValue == s.executedValue && s'.paused == s.paused
  }

  ghost predicate AwaitingAttestations(p: Policy, r: Record, d: Digest) {
    && d == DigestOf(r.message) && r.state == FinalityPending && r.attestations == map[]
    && r.confirmations >= p.requiredConfirmations
  }

  lemma AttestOnce(p: Policy, r: Record, d: Digest, before: Record, relayers: seq<string>, last: string,
                   signature: string)
    requires 0 < p.threshold && AwaitingAttestations(p, r, d)
    requires CollectedBy(p, r, before, relayers) && last !in relayers
    ensures CollectedBy(p, r, Advance(p, d, before, Attest(last, "key", signature, true)), relayers + [last])
  {
    var after := Advance(p, d, before, Attest(last, "key", signature, true));
    assert after.attestations.Keys == before.attestations.Keys + {last};
    assert |after.attestations.Keys| == |before.attestations.Keys| + 1;
  }

  /** The record with the attestations of exactly these relayers. */
  ghost predicate CollectedBy(p: Policy, r: Record, r': Record, relayers: seq<string>) {
    && r'.message == r.message && r'.confirmations == r.confirmations
    && |r'.attestations| == |relayers|
    && (forall id :: id in r'.attestations <==> id in relayers)
    && r'.state == if |relayers| >= p.threshold then Attested else FinalityPending
  }

  lemma AttestStep(p: Policy, s: State, before: State, d: Digest, relayers: seq<string>, last: string,
                   signature: string)
    requires 0 < p.threshold && d in s.records && AwaitingAttestations(p, s.records[d], d)
    requires OnlyRecord(s, before, d) && CollectedBy(p, s.records[d], before.records[d], relayers)
    requires last !in relayers && last in p.relayers && IsSignatureText(signature)
    ensures var after := Step(p, before, On(d, Attest(last, "key", signature, true)));
            OnlyRecord(s, after, d) && CollectedBy(p, s.records[d], after.records[d], relayers + [last])
  {
    var a := Attest(last, "key", signature, true);
    assert ActionRefusal(p, before, d, a).None?;
    AttestOnce(p, s.records[d], d, before.records[d], relayers, last, signature);
  }

  ghost predicate Relayers(p: Policy, relayers: seq<string>) {
    && (forall i | 0 <= i < |relayers| :: relayers[i] in p.relayers)
    && (forall i, j | 0 <= i < j < |relayers| :: relayers[i] != relayers[j])
  }

  lemma RelayersInit(p: Policy, relayers: seq<string>)
    requires Relayers(p, relayers) && relayers != []
    ensures var (rest, last) := (relayers[..|relayers| - 1], relayers[|relayers| - 1]);
            Relayers(p, rest) && last !in rest && last in p.relayers && relayers == rest + [last]
  {
  }

  lemma {:induction false} AttestingWorks(p: Policy, s: State, d: Digest, relayers: seq<string>, signature: string)
    requires 0 < p.threshold && d in s.records && AwaitingAttestations(p, s.records[d], d)
    requires IsSignatureText(signature) && Relayers(p, relayers)
    ensures var s' := Run(p, s, Attesting(d, relayers, signature));
            OnlyRecord(s, s', d) && CollectedBy(p, s.records[d], s'.records[d], relayers)
  {
    if relayers == [] {
      assert s.records == s.records[d := s.records[d]];
    } else {
      var (rest, last) := (relayers[..|relayers| - 1], relayers[|relayers| - 1]);
      var e := On(d, Attest(last, "key", signature, true));
      RelayersInit(p, relayers);
      AttestingWorks(p, s, d, rest, signature);
      RunAppend(p, s, Attesting(d, rest, signature), [e]);
      OneStep(p, Run(p, s, Attesting(d, rest, signature)), e);
      AttestStep(p, s, Run(p, s, Attesting(d, rest, signature)), d, rest, last, signature);
    }
  }

  lemma OneStep(p: Policy, s: State, e: Event)
    ensures Run(p, s, [e]) == Step(p, s, e)
  {
    assert [e][..0] == [];
  }

  ghost function Bringing(p: Policy, m: Message, relayers: seq<string>, signature: string): seq<Event> {
    [Observe(m), On(DigestOf(m), Confirm(p.requiredConfirmations))] + Attesting(DigestOf(m), relayers, signature)
  }

  /** The state with one more message, attested. */
  ghost predicate Brought(s: State, s': State, m: Message) {
    && DigestOf(m) in s'.records && s'.records[DigestOf(m)].state == Attested
    && s'.records[DigestOf(m)].message == m
    && s'.records == s.records[DigestOf(m) := s'.records[DigestOf(m)]]
    && s'.usedTransactions == s.usedTransactions + {m.sourceTransaction}
    && s'.usedNonces == s.usedNonces + {NonceKey(m)}
    && s'.executedValue == s.executedValue && s'.paused == s.paused
  }

  ghost predicate Quorate(p: Policy, relayers: seq<string>) {
    |relayers| == p.threshold && Relayers(p, relayers)
  }

  lemma Confirmed(p: Policy, s: State, m: Message)
    requires p.ValidLimits() && ObserveRefusal(p, s, m).None?
    ensures var s' := Run(p, s, [Observe(m), On(DigestOf(m), Confirm(p.requiredConfirmations))]);
            s' == Add(s, m).(records := s.records[DigestOf(m) :=
                    Record(m, FinalityPending, p.requiredConfirmations, map[], None, None)])
  {
    var d := DigestOf(m);
    var confirm := On(d, Confirm(p.requiredConfirmations));
    assert [Observe(m), confirm] == [Observe(m)] + [confirm];
    RunAppend(p, s, [Observe(m)], [confirm]);
    OneStep(p, s, Observe(m));
    OneStep(p, Add(s, m), confirm);
    assert Add(s, m).records[d] == Record(m, Observed, 0, map[], None, None);
    assert |Add(s, m).records[d].attestations| == 0;
  }

  lemma BroughtFrom(p: Policy, s: State, s1: State, s': State, m: Message, relayers: seq<string>)
    requires s1 == Add(s, m).(records := s.records[DigestOf(m) :=
                     Record(m, FinalityPending, p.requiredConfirmations, map[], None, None)])
    requires OnlyRecord(s1, s', DigestOf(m))
    requires CollectedBy(p, s1.records[DigestOf(m)], s'.records[DigestOf(m)], relayers) && |relayers| == p.threshold
    ensures Brought(s, s', m)
  {
  }

  /** Any new valid message can be brought to the attested state. */
  lemma BringingWorks(p: Policy, s: State, m: Message, relayers: seq<string>, signature: string)
    requires p.ValidLimits() && ObserveRefusal(p, s, m).None? && IsSignatureText(signature) && Quorate(p, relayers)
    ensures Brought(s, Run(p, s, Bringing(p, m, relayers, signature)), m)
  {
    var d := DigestOf(m);
    var start := [Observe(m), On(d, Confirm(p.requiredConfirmations))];
    Confirmed(p, s, m);
    RunAppend(p, s, start, Attesting(d, relayers, signature));
    var s1 := Run(p, s, start);
    assert AwaitingAttestations(p, s1.records[d], d);
    AttestingWorks(p, s1, d, relayers, signature);
    BroughtFrom(p, s, s1, Run(p, s1, Attesting(d, relayers, signature)), m, relayers);
  }

  ghost function Finishing(d: Digest, d': Digest, transaction: string): seq<Event> {
    [On(d, Prepare)] + [On(d', Prepare)] + [On(d, Execute(transaction))] + [On(d', Execute(transaction))]
  }

  /** Two attested messages that fit the daily limit one by one are executed together. */
  lemma FinishingWorks(p: Policy, s: State, d: Digest, d': Digest, transaction: string)
    requires d in s.records && d' in s.records && d != d' && !s.paused && IsTransactionHash(transaction)
    requires s.records[d].state == Attested && s.records[d'].state == Attested
    requires s.records[d].message.value <= p.perTransactionLimit && s.records[d'].message.value <= p.perTransactionLimit
    requires s.executedValue + s.records[d].message.value <= p.dailyLimit
    requires s.executedValue + s.records[d'].message.value <= p.dailyLimit
    ensures Run(p, s, Finishing(d, d', transaction)).executedValue ==
            s.executedValue + s.records[d].message.value + s.records[d'].message.value
  {
    var s1 := Step(p, s, On(d, Prepare));
    var s2 := Step(p, s1, On(d', Prepare));
    var s3 := Step(p, s2, On(d, Execute(transaction)));
    OneStep(p, s, On(d, Prepare));
    OneStep(p, s1, On(d', Prepare));
    OneStep(p, s2, On(d, Execute(transaction)));
    OneStep(p, s3, On(d', Execute(transaction)));
    RunAppend(p, s, [On(d, Prepare)], [On(d', Prepare)]);
    RunAppend(p, s, [On(d, Prepare)] + [On(d', Prepare)], [On(d, Execute(transaction))]);
    RunAppend(p, s, [On(d, Prepare)] + [On(d', Prepare)] + [On(d, Execute(transaction))],
              [On(d', Execute(transaction))]);
  }

  lemma SomeQuorum(p: Policy) returns (relayers: seq<string>)
    requires p.ValidLimits()
    ensures Quorate(p, relayers)
  {
    SortNamesLists(p.relayers);
    LexIsStrictTotal();
    relayers := SortNames(p.relayers)[..p.threshold];
  }

  lemma StillObservable(p: Policy, s: State, m: Message, m': Message)
    requires Brought(Start(false), s, m) && ValidMessage(p, m')
    requires m.sourceTransaction != m'.sourceTransaction && NonceKey(m) != NonceKey(m')
    ensures ObserveRefusal(p, s, m').None?
  {
  }

  /** Any two different valid messages within the per-transaction limit can both be executed
      from the start, whatever the daily limit: the executed value is their sum. */
  lemma BothAreExecuted(p: Policy, m: Message, m': Message, signature: string) returns (es: seq<Event>)
    requires p.ValidLimits() && ValidMessage(p, m) && ValidMessage(p, m') && IsSignatureText(signature)
    requires m.sourceTransaction != m'.sourceTransaction && NonceKey(m) != NonceKey(m')
    requires m.value <= p.perTransactionLimit && m'.value <= p.perTransactionLimit
    ensures Run(p, Start(false), es).executedValue == m.value + m'.value
  {
    var relayers := SomeQuorum(p);
    var first := Bringing(p, m, relayers, signature);
    var second := Bringing(p, m', relayers, signature);
    var finish := Finishing(DigestOf(m), DigestOf(m'), m.sourceTransaction);
    es := first + second + finish;
    var s1 := Run(p, Start(false), first);
    RunAppend(p, Start(false), first, second);
    RunAppend(p, Start(false), first + second, finish);
    BringingWorks(p, Start(false), m, relayers, signature);
    StillObservable(p, s1, m, m');
    BringingWorks(p, s1, m', relayers, signature);
    FinishingWorks(p, Run(p, s1, second), DigestOf(m), DigestOf(m'), m.sourceTransaction);
  }

  /** So the daily limit can be exceeded: whenever two different valid messages within the
      per-transaction limit are worth more than it together, a run executes both. */
  lemma DailyLimitCanBeExceeded(p: Policy, m: Message, m': Message, signature: string) returns (es: seq<Event>)
    requires p.ValidLimits() && ValidMessage(p, m) && ValidMessage(p, m') && IsSignatureText(signature)
    requires m.sourceTransaction != m'.sourceTransaction && NonceKey(m) != NonceKey(m')
    requires m.value <= p.perTransactionLimit && m'.value <= p.perTransactionLimit
    requires p.dailyLimit < m.value + m'.value
    ensures Run(p, Start(false), es).executedValue > p.dailyLimit
  {
    es := BothAreExecuted(p, m, m', signature);
  }
}
