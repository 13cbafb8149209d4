/** The bridge message state machine and what any run of it keeps. */
module Bridge {
  import opened Prelude
  import opened Weights

  datatype BridgeState = Observed | FinalityPending | Attested | ExecutionReady | Executed | Rejected

  /** The fields of a message that no transition looks at again. */
  datatype Details = Details(
    routeDigest: string,
    direction: string,
    destinationNetwork: string,
    sourceBlock: int,
    assetType: string,
    sourceAsset: string,
    destinationAsset: string,
    sender: string,
    recipient: string,
    tokenId: Option<int>,
    governance: string,
    notice: string,
    schemaVersion: int)

  datatype Message = Message(sourceNetwork: string, nonce: int, sourceTransaction: string, value: int, details: Details)

  /** The digest of a message, or text that is the digest of none. */
  datatype Digest = DigestOf(message: Message) | OtherText(text: string)

  datatype Attestation = Attestation(relayerId: string, digest: Digest, keyId: string, signature: string,
                                     verified: bool)

  datatype Record = Record(
    message: Message,
    state: BridgeState,
    confirmations: int,
    attestations: map<string, Attestation>,
    executionTransaction: Option<string>,
    rejectionReason: Option<string>)

  const GOVERNANCE := "JAIOS Institutional Governance"
  const NOTICE := "Public Testnet / No Monetary Value"
  const JUNCA := "junca-public-testnet"

  datatype Policy = Policy(
    routeDigest: string,
    networks: set<string>,
    relayers: set<string>,
    threshold: int,
    requiredConfirmations: int,
    perTransactionLimit: int,
    dailyLimit: int)
  {
    predicate Valid() {
      ValidRoute() && ValidLimits()
    }

    predicate ValidRoute() {
      && |routeDigest| == 64 && IsLowerHex(routeDigest)
      && |networks| == 2 && JUNCA in networks && ("bsc-testnet" in networks || "tron-shasta" in networks)
    }

    predicate ValidLimits() {
      && 3 <= |relayers| && 2 <= threshold <= |relayers|
      && 0 < requiredConfirmations
      && 0 < perTransactionLimit <= dailyLimit
    }
  }

  datatype State = State(
    records: map<Digest, Record>,
    usedTransactions: set<string>,
    usedNonces: set<(string, int)>,
    executedValue: int,
    paused: bool)

  datatype BridgeError =
    | InvalidMessage
    | MessageReplay
    | TransactionReplay
    | NonceReplay
    | UnknownMessage
    | InvalidTransition
    | ConfirmationsDecrease
    | TerminalRecord
    | UnknownRelayer
    | DuplicateAttestation
    | DigestMismatch
    | UnverifiedSignature
    | KeyIdRequired
    | InvalidSignatureEncoding
    | NotAttested
    | RoutePaused
    | PerTransactionLimit
    | DailyLimit
    | NotReady
    | InvalidExecutionTransaction
    | AlreadyExecuted
    | ReasonRequired

  predicate IsLowerHex(s: string) {
    forall i | 0 <= i < |s| :: IsLowerHexDigit(s[i])
  }

  predicate IsHex(s: string) {
    forall i | 0 <= i < |s| :: IsHexDigit(s[i])
  }

  function WithoutPrefix(s: string): string {
    if |s| >= 2 && s[0] == '0' && s[1] == 'x' then s[2..] else s
  }

  predicate IsTransactionHash(s: string) {
    |WithoutPrefix(s)| == 64 && IsHex(WithoutPrefix(s))
  }

  predicate IsSignatureText(s: string) {
    |WithoutPrefix(s)| >= 128 && IsHex(WithoutPrefix(s))
  }

  predicate ValidMessage(p: Policy, m: Message) {
    0 <= m.nonce && IsTransactionHash(m.sourceTransaction) && 0 < m.value && ValidDetails(p, m.sourceNetwork, m.details)
  }

  predicate ValidDetails(p: Policy, sourceNetwork: string, d: Details) {
    && d.schemaVersion == 1
    && d.routeDigest == p.routeDigest
    && d.governance == GOVERNANCE && d.notice == NOTICE
    && sourceNetwork in p.networks && d.destinationNetwork in p.networks
    && sourceNetwork != d.destinationNetwork
    && d.direction == sourceNetwork + "->" + d.destinationNetwork
    && 0 <= d.sourceBlock
    && (d.assetType == "fungible" || d.assetType == "nft")
    && (if d.assetType == "nft" then d.tokenId.Some? && 0 <= d.tokenId.value else d.tokenId.None?)
    && !IsBlank(d.sourceAsset) && !IsBlank(d.destinationAsset) && !IsBlank(d.sender) && !IsBlank(d.recipient)
  }

  /** What can be asked of a recorded message. */
  datatype Action =
    | Confirm(confirmations: int)
    | Attest(relayerId: string, keyId: string, signature: string, verified: bool)
    | Prepare
    | Execute(transaction: string)
    | Reject(reason: string)

  datatype Event =
    | Observe(message: Message)
    | On(digest: Digest, action: Action)
    | SetPaused(paused: bool)

  predicate Enough(p: Policy, attestations: map<string, Attestation>, confirmations: int) {
    |attestations| >= p.threshold && confirmations >= p.requiredConfirmations
  }

  function ObserveRefusal(p: Policy, s: State, m: Message): Option<BridgeError> {
    if !ValidMessage(p, m) then Some(InvalidMessage)
    else if DigestOf(m) in s.records then Some(MessageReplay)
    else if m.sourceTransaction in s.usedTransactions then Some(TransactionReplay)
    else if (m.sourceNetwork, m.nonce) in s.usedNonces then Some(NonceReplay)
    else None
  }

  function ConfirmRefusal(r: Record, confirmations: int): Option<BridgeError> {
    if r.state !in {Observed, FinalityPending} then Some(InvalidTransition)
    else if confirmations < r.confirmations then Some(ConfirmationsDecrease)
    else None
  }

  function AttestRefusal(p: Policy, d: Digest, r: Record, relayerId: string, keyId: string, signature: string,
                         verified: bool)
    : Option<BridgeError>
  {
    if r.state in {Executed, Rejected} then Some(TerminalRecord)
    else if relayerId !in p.relayers then Some(UnknownRelayer)
    else if relayerId in r.attestations then Some(DuplicateAttestation)
    else if d != DigestOf(r.message) then Some(DigestMismatch)
    else if !verified then Some(UnverifiedSignature)
    else if keyId == "" then Some(KeyIdRequired)
    else if !IsSignatureText(signature) then Some(InvalidSignatureEncoding)
    else None
  }

  function PrepareRefusal(p: Policy, r: Record, executedValue: int, paused: bool): Option<BridgeError> {
    if r.state != Attested then Some(NotAttested)
    else if paused then Some(RoutePaused)
    else if r.message.value > p.perTransactionLimit then Some(PerTransactionLimit)
    else if executedValue + r.message.value > p.dailyLimit then Some(DailyLimit)
    else None
  }

  function ExecuteRefusal(r: Record, transaction: string): Option<BridgeError> {
    if r.state != ExecutionReady then Some(NotReady)
    else if !IsTransactionHash(transaction) then Some(InvalidExecutionTransaction)
    else None
  }

  function RejectRefusal(r: Record, reason: string): Option<BridgeError> {
    if r.state == Executed then Some(AlreadyExecuted)
    else if IsBlank(reason) then Some(ReasonRequired)
    else None
  }

  /** Why an action on a record is refused, in the order of the checks. */
  function ActionRefusal(p: Policy, s: State, d: Digest, a: Action): Option<BridgeError> {
    if d !in s.records then Some(UnknownMessage)
    else
      match a
      case Confirm(confirmations) => ConfirmRefusal(s.records[d], confirmations)
      case Attest(relayerId, keyId, signature, verified) =>
        AttestRefusal(p, d, s.records[d], relayerId, keyId, signature, verified)
      case Prepare => PrepareRefusal(p, s.records[d], s.executedValue, s.paused)
      case Execute(transaction) => ExecuteRefusal(s.records[d], transaction)
      case Reject(reason) => RejectRefusal(s.records[d], reason)
  }

  /** The record after an accepted action. */
  function Advance(p: Policy, d: Digest, r: Record, a: Action): Record {
    match a
    case Confirm(confirmations) =>
      r.(confirmations := confirmations,
         state := if Enough(p, r.attestations, confirmations) then Attested else FinalityPending)
    case Attest(relayerId, keyId, signature, verified) =>
      var attestations := r.attestations[relayerId := Attestation(relayerId, d, keyId, signature, verified)];
      r.(attestations := attestations, state := if Enough(p, attestations, r.confirmations) then Attested else r.state)
    case Prepare => r.(state := ExecutionReady)
    case Execute(transaction) => r.(state := Executed, executionTransaction := Some(transaction))
    case Reject(reason) => r.(state := Rejected, rejectionReason := Some(Strip(reason)))
  }

  function Add(s: State, m: Message): State {
    s.(records := s.records[DigestOf(m) := Record(m, Observed, 0, map[], None, None)],
       usedTransactions := s.usedTransactions + {m.sourceTransaction},
       usedNonces := s.usedNonces + {(m.sourceNetwork, m.nonce)})
  }

  function Act(p: Policy, s: State, d: Digest, a: Action): State
    requires d in s.records
  {
    var r := s.records[d];
    s.(records := s.records[d := Advance(p, d, r, a)],
       executedValue := s.executedValue + if a.Execute? then r.message.value else 0)
  }

  function Step(p: Policy, s: State, e: Event): State {
    match e
    case SetPaused(paused) => s.(paused := paused)
    case Observe(m) => if ObserveRefusal(p, s, m).Some? then s else Add(s, m)
    case On(d, a) => if ActionRefusal(p, s, d, a).Some? then s else Act(p, s, d, a)
  }

  ghost function Start(paused: bool): State {
    State(map[], {}, {}, 0, paused)
  }

  ghost function Run(p: Policy, s: State, es: seq<Event>): State {
    if es == [] then s else Step(p, Run(p, s, es[..|es| - 1]), es[|es| - 1])
  }

  // ---------------------------------------------------------------- invariant

  type Records = map<Digest, Record>

  ghost function InState(records: Records, state: BridgeState): set<Digest> {
    set d | d in records && records[d].state == state
  }

  ghost function Values(records: Records): map<Digest, nat> {
    map d | d in records :: if records[d].message.value < 0 then 0 else records[d].message.value
  }

  /** The total value of the records in one state. */
  ghost function ValueIn(records: Records, state: BridgeState): nat {
    Weight(Values(records), InState(records, state))
  }

  /** One record: it awaits attestation exactly as long as attestations or confirmations
      are short, unless it was rejected. */
  ghost predicate SoundRecord(p: Policy, d: Digest, r: Record) {
    && d == DigestOf(r.message) && 0 < r.message.value
    && 0 <= r.confirmations
    && (forall id | id in r.attestations ::
          id in p.relayers && r.attestations[id].relayerId == id && r.attestations[id].digest == d &&
            r.attestations[id].verified)
    && (r.state != Rejected ==>
          (r.state in {Observed, FinalityPending} <==> !Enough(p, r.attestations, r.confirmations)))
    && (r.state == ExecutionReady ==> r.message.value <= p.perTransactionLimit)
    && (r.executionTransaction.Some? <==> r.state == Executed)
    && (r.rejectionReason.Some? <==> r.state == Rejected)
  }

  ghost predicate SoundRecords(p: Policy, records: Records) {
    forall d | d in records :: SoundRecord(p, d, records[d])
  }

  function NonceKey(m: Message): (string, int) {
    (m.sourceNetwork, m.nonce)
  }

  /** No source transaction and no source nonce belongs to two records. */
  ghost predicate NoReplay(s: State) {
    && (forall d | d in s.records ::
          s.records[d].message.sourceTransaction in s.usedTransactions &&
            NonceKey(s.records[d].message) in s.usedNonces)
    && (forall d, d' | d in s.records && d' in s.records && d != d' ::
          && s.records[d].message.sourceTransaction != s.records[d'].message.sourceTransaction
          && NonceKey(s.records[d].message) != NonceKey(s.records[d'].message))
  }

  ghost predicate Invariant(p: Policy, s: State) {
    && SoundRecords(p, s.records)
    && NoReplay(s)
    && s.executedValue == ValueIn(s.records, Executed)
  }

  lemma WeightChange(w: map<Digest, nat>, w': map<Digest, nat>, a: set<Digest>, a': set<Digest>, d: Digest)
    requires a <= w.Keys && a' <= w'.Keys
    requires a - {d} == a' - {d}
    requires forall x | x in a - {d} :: w[x] == w'[x]
    ensures Weight(w', a') + (if d in a then w[d] else 0) == Weight(w, a) + (if d in a' then w'[d] else 0)
  {
    var others := a - {d};
    WeightAgree(w, w', others);
    if d in a { WeightRemove(w, a, d); } else { assert others == a; }
    if d in a' { WeightRemove(w', a', d); } else { assert others == a'; }
  }

  /** How the value held in one state changes when one record changes. */
  lemma ValueMoves(records: Records, d: Digest, r: Record, state: BridgeState)
    requires d in records && r.message == records[d].message && 0 < r.message.value
    ensures ValueIn(records[d := r], state) + (if records[d].state == state then r.message.value else 0)
         == ValueIn(records, state) + (if r.state == state then r.message.value else 0)
    ensures InState(records[d := r], state) == InState(records, state) - {d} + if r.state == state then {d} else {}
  {
    var records' := records[d := r];
    assert InState(records, state) - {d} == InState(records', state) - {d};
    WeightChange(Values(records), Values(records'), InState(records, state), InState(records', state), d);
  }

  lemma ValueKept(records: Records, d: Digest, r: Record, state: BridgeState)
    requires d !in records && r.state != state
    ensures InState(records[d := r], state) == InState(records, state)
    ensures ValueIn(records[d := r], state) == ValueIn(records, state)
  {
    assert InState(records[d := r], state) == InState(records, state);
    WeightAgree(Values(records), Values(records[d := r]), InState(records, state));
  }

  lemma AttestedRecordSound(p: Policy, d: Digest, r: Record, relayerId: string, keyId: string, signature: string)
    requires SoundRecord(p, d, r) && r.state !in {Executed, Rejected}
    requires relayerId in p.relayers && relayerId !in r.attestations
    ensures SoundRecord(p, d, Advance(p, d, r, Attest(relayerId, keyId, signature, true)))
  {
    var attestations := Advance(p, d, r, Attest(relayerId, keyId, signature, true)).attestations;
    assert attestations.Keys == r.attestations.Keys + {relayerId};
    assert |attestations.Keys| == |r.attestations.Keys| + 1;
  }

  lemma AdvanceKeepsSound(p: Policy, s: State, d: Digest, a: Action)
    requires p.ValidLimits() && d in s.records && SoundRecord(p, d, s.records[d])
    requires ActionRefusal(p, s, d, a).None?
    ensures SoundRecord(p, d, Advance(p, d, s.records[d], a))
  {
    if a.Attest? {
      AttestedRecordSound(p, d, s.records[d], a.relayerId, a.keyId, a.signature);
    }
  }

  lemma ActKeepsNoReplay(p: Policy, s: State, d: Digest, a: Action)
    requires NoReplay(s) && d in s.records
    ensures NoReplay(Act(p, s, d, a))
  {
    var s' := Act(p, s, d, a);
    assert forall x | x in s'.records :: x in s.records && s'.records[x].message == s.records[x].message;
  }

  lemma ActKeepsRecords(p: Policy, s: State, d: Digest, a: Action)
    requires p.ValidLimits() && SoundRecords(p, s.records) && ActionRefusal(p, s, d, a).None?
    ensures SoundRecords(p, Act(p, s, d, a).records)
  {
    assert SoundRecord(p, d, s.records[d]);
    AdvanceKeepsSound(p, s, d, a);
  }

  /** How an accepted action moves a record: only execution reaches the executed state, from
      the ready state, and only preparation makes a record ready. */
  lemma AdvanceMoves(p: Policy, s: State, d: Digest, a: Action)
    requires ActionRefusal(p, s, d, a).None?
    ensures var (r, r') := (s.records[d], Advance(p, d, s.records[d], a));
            && r'.message == r.message && r.state != Executed
            && (a.Execute? ==> r.state == ExecutionReady)
            && (a.Execute? <==> r'.state == Executed)
            && (r'.state == ExecutionReady ==> a.Prepare? || r.state == ExecutionReady)
  {
  }

  lemma ActCountsExecution(p: Policy, s: State, d: Digest, a: Action)
    requires d in s.records && 0 < s.records[d].message.value && ActionRefusal(p, s, d, a).None?
    requires s.executedValue == ValueIn(s.records, Executed)
    ensures Act(p, s, d, a).executedValue == ValueIn(Act(p, s, d, a).records, Executed)
  {
    AdvanceMoves(p, s, d, a);
    ValueMoves(s.records, d, Advance(p, d, s.records[d], a), Executed);
  }

  lemma ActRaisesNothing(p: Policy, s: State, d: Digest, a: Action)
    requires d in s.records && 0 < s.records[d].message.value && ActionRefusal(p, s, d, a).None? && !a.Prepare?
    ensures Exposure(Act(p, s, d, a)) <= Exposure(s)
  {
    AdvanceMoves(p, s, d, a);
    ValueMoves(s.records, d, Advance(p, d, s.records[d], a), ExecutionReady);
  }

  lemma ActKeepsInvariant(p: Policy, s: State, d: Digest, a: Action)
    requires p.ValidLimits() && Invariant(p, s) && ActionRefusal(p, s, d, a).None?
    ensures Invariant(p, Act(p, s, d, a))
  {
    assert SoundRecord(p, d, s.records[d]);
    ActKeepsRecords(p, s, d, a);
    ActKeepsNoReplay(p, s, d, a);
    ActCountsExecution(p, s, d, a);
  }

  lemma AddKeepsInvariant(p: Policy, s: State, m: Message)
    requires p.ValidLimits() && Invariant(p, s) && ObserveRefusal(p, s, m).None?
    ensures Invariant(p, Add(s, m))
  {
    var d := DigestOf(m);
    var r := Add(s, m).records[d];
    assert SoundRecord(p, d, r);
    ValueKept(s.records, d, r, Executed);
  }

  lemma StepKeepsInvariant(p: Policy, s: State, e: Event)
    requires p.ValidLimits() && Invariant(p, s)
    ensures Invariant(p, Step(p, s, e))
  {
    match e
    case SetPaused(_) =>
    case Observe(m) => if ObserveRefusal(p, s, m).None? { AddKeepsInvariant(p, s, m); }
    case On(d, a) => if ActionRefusal(p, s, d, a).None? { ActKeepsInvariant(p, s, d, a); }
  }

  lemma {:induction false} RunKeepsInvariant(p: Policy, paused: bool, es: seq<Event>)
    requires p.ValidLimits()
    ensures Invariant(p, Run(p, Start(paused), es))
  {
    if es != [] {
      RunKeepsInvariant(p, paused, es[..|es| - 1]);
      StepKeepsInvariant(p, Run(p, Start(paused), es[..|es| - 1]), es[|es| - 1]);
    } else {
      assert InState(Start(paused).records, Executed) == {};
    }
  }

  // -------------------------------------------------------------- value bound

  ghost function Exposure(s: State): int {
    s.executedValue + ValueIn(s.records, ExecutionReady)
  }

  ghost predicate Bounded(p: Policy, s: State, m: nat) {
    Exposure(s) <= p.dailyLimit + (m - 1) * p.perTransactionLimit
  }

  /** Preparing one more record: those already ready are worth at most the per-transaction
      limit each, and the new one fits under the daily limit on its own. */
  lemma PrepareStaysBounded(p: Policy, s: State, d: Digest, m: nat)
    requires 0 < p.perTransactionLimit && SoundRecords(p, s.records) && ActionRefusal(p, s, d, Prepare).None?
    requires |InState(Act(p, s, d, Prepare).records, ExecutionReady)| <= m
    ensures Bounded(p, Act(p, s, d, Prepare), m)
  {
    assert SoundRecord(p, d, s.records[d]);
    ReadyGrows(s.records, d);
    ReadyIsCapped(p, s.records);
    OneMore(s.executedValue, s.records[d].message.value, ValueIn(s.records, ExecutionReady),
            |InState(s.records, ExecutionReady)|, m, p);
  }

  lemma OneMore(executed: int, value: nat, readyValue: nat, ready: nat, m: nat, p: Policy)
    requires executed + value <= p.dailyLimit && 0 < p.perTransactionLimit
    requires readyValue <= ready * p.perTransactionLimit && ready + 1 <= m
    ensures executed + readyValue + value <= p.dailyLimit + (m - 1) * p.perTransactionLimit
  {
    TimesOrdered(ready, m - 1, p.perTransactionLimit);
  }

  lemma ReadyGrows(records: Records, d: Digest)
    requires d in records && records[d].state != ExecutionReady && 0 < records[d].message.value
    ensures var records' := records[d := records[d].(state := ExecutionReady)];
            && |InState(records', ExecutionReady)| == |InState(records, ExecutionReady)| + 1
            && ValueIn(records', ExecutionReady) == ValueIn(records, ExecutionReady) + records[d].message.value
  {
    var r := records[d].(state := ExecutionReady);
    ValueMoves(records, d, r, ExecutionReady);
    assert InState(records[d := r], ExecutionReady) == InState(records, ExecutionReady) + {d};
  }

  lemma ReadyIsCapped(p: Policy, records: Records)
    requires 0 < p.perTransactionLimit && SoundRecords(p, records)
    ensures ValueIn(records, ExecutionReady) <= |InState(records, ExecutionReady)| * p.perTransactionLimit
  {
    var ready := InState(records, ExecutionReady);
    forall x | x in ready
      ensures Values(records)[x] <= p.perTransactionLimit
    {
      assert SoundRecord(p, x, records[x]);
    }
    WeightCapped(Values(records), ready, p.perTransactionLimit);
  }

  /** No other step raises the value that is executed or ready. */
  lemma OtherStepsRaiseNothing(p: Policy, s: State, e: Event)
    requires SoundRecords(p, s.records)
    requires e.On? && e.action.Prepare? ==> ActionRefusal(p, s, e.digest, e.action).Some?
    ensures Exposure(Step(p, s, e)) <= Exposure(s)
  {
    match e
    case SetPaused(_) =>
    case Observe(m) =>
      if ObserveRefusal(p, s, m).None? {
        ValueKept(s.records, DigestOf(m), Add(s, m).records[DigestOf(m)], ExecutionReady);
      }
    case On(d, a) =>
      if ActionRefusal(p, s, d, a).None? {
        assert SoundRecord(p, d, s.records[d]);
        ActRaisesNothing(p, s, d, a);
      }
  }

  /** Never more than `m` records are ready at the same time. */
  ghost predicate AtMostReady(p: Policy, paused: bool, es: seq<Event>, m: nat) {
    forall n | 0 <= n <= |es| :: |InState(Run(p, Start(paused), es[..n]).records, ExecutionReady)| <= m
  }

  /** Executed value is the value of the executed records, and with everything that is ready
      it stays within the daily limit plus one per-transaction limit for each further record
      that is ever ready at once. */
  lemma {:induction false} ValueBound(p: Policy, paused: bool, es: seq<Event>, m: nat)
    requires p.ValidLimits() && 1 <= m && AtMostReady(p, paused, es, m)
    ensures var s := Run(p, Start(paused), es);
            && s.executedValue == ValueIn(s.records, Executed)
            && s.executedValue + ValueIn(s.records, ExecutionReady) <= p.dailyLimit + (m - 1) * p.perTransactionLimit
  {
    RunKeepsInvariant(p, paused, es);
    if es == [] {
      assert InState(Start(paused).records, ExecutionReady) == {};
      TimesOrdered(0, m - 1, p.perTransactionLimit);
    } else {
      var (before, e) := (es[..|es| - 1], es[|es| - 1]);
      var s := Run(p, Start(paused), before);
      assert forall n | 0 <= n <= |before| :: before[..n] == es[..n];
      assert es[..|es|] == es;
      ValueBound(p, paused, before, m);
      RunKeepsInvariant(p, paused, before);
      if e.On? && e.action.Prepare? && ActionRefusal(p, s, e.digest, e.action).None? {
        PrepareStaysBounded(p, s, e.digest, m);
      } else {
        OtherStepsRaiseNothing(p, s, e);
      }
    }
  }

  /** With one record ready at a time the daily limit itself holds. */
  lemma DailyLimitWhenOneReady(p: Policy, paused: bool, es: seq<Event>)
    requires p.ValidLimits() && AtMostReady(p, paused, es, 1)
    ensures Run(p, Start(paused), es).executedValue <= p.dailyLimit
  {
    ValueBound(p, paused, es, 1);
    assert (1 - 1) * p.perTransactionLimit == 0;
  }

  /** An executed record never changes again. */
  lemma {:induction false} ExecutedRecordsStay(p: Policy, s: State, es: seq<Event>, d: Digest)
    requires d in s.records && s.records[d].state == Executed
    ensures d in Run(p, s, es).records && Run(p, s, es).records[d] == s.records[d]
  {
    if es != [] {
      var (before, e) := (Run(p, s, es[..|es| - 1]), es[|es| - 1]);
      ExecutedRecordsStay(p, s, es[..|es| - 1], d);
      if e.On? && ActionRefusal(p, before, e.digest, e.action).None? {
        AdvanceMoves(p, before, e.digest, e.action);
      }
    }
  }
}
