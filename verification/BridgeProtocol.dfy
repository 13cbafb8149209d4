/** The bridge as the mutable reference engine. */
module BridgeProtocols {
  import opened Bridge
  import opened Prelude

  class BridgeProtocol {
    const policy: Policy
    var records: map<Digest, Record>
    var usedSourceTransactions: set<string>
    var usedNonces: set<(string, int)>
    var executedValue: int
    var paused: bool

    ghost function Contents(): State
      reads this
    {
      State(records, usedSourceTransactions, usedNonces, executedValue, paused)
    }

    constructor (policy: Policy, paused: bool)
      ensures this.policy == policy && Contents() == Start(paused)
    {
      this.policy := policy;
      records, usedSourceTransactions, usedNonces, executedValue := map[], {}, {}, 0;
      this.paused := paused;
    }

    static method Create(policy: Policy, paused: bool) returns (r: Option<BridgeProtocol>)
      ensures r.Some? <==>
              && |policy.routeDigest| == 64
              && (forall c | c in policy.routeDigest :: '0' <= c <= '9' || 'a' <= c <= 'f')
              && |policy.networks| == 2 && "junca-public-testnet" in policy.networks
              && policy.networks * {"bsc-testnet", "tron-shasta"} != {}
              && |policy.relayers| >= 3 && 2 <= policy.threshold <= |policy.relayers|
              && policy.requiredConfirmations >= 1 && 1 <= policy.perTransactionLimit <= policy.dailyLimit
      ensures r.Some? ==> fresh(r.value) && r.value.policy == policy && r.value.Contents() == Start(paused)
    {
      PolicyValidIff(policy);
      if !policy.Valid() { return None; }
      var made := new BridgeProtocol(policy, paused);
      return Some(made);
    }

    method ObserveMessage(message: Message) returns (r: Result<Record, BridgeError>)
      modifies this
      ensures Contents() == Step(policy, old(Contents()), Observe(message))
      ensures match ObserveRefusal(policy, old(Contents()), message)
              case Some(e) => r == Err(e)
              case None => DigestOf(message) in records && r == Ok(records[DigestOf(message)])
    {
      if !ValidMessage(policy, message) { return Err(InvalidMessage); }
      var digest := DigestOf(message);
      if digest in records { return Err(MessageReplay); }
      if message.sourceTransaction in usedSourceTransactions { return Err(TransactionReplay); }
      var nonceKey := (message.sourceNetwork, message.nonce);
      if nonceKey in usedNonces { return Err(NonceReplay); }
      var record := Record(message, Observed, 0, map[], None, None);
      records := records[digest := record];
      usedSourceTransactions := usedSourceTransactions + {message.sourceTransaction};
      usedNonces := usedNonces + {nonceKey};
      return Ok(record);
    }

    method ApplyConfirmations(digest: Digest, confirmations: int) returns (r: Result<Record, BridgeError>)
      modifies this
      ensures Contents() == Step(policy, old(Contents()), On(digest, Confirm(confirmations)))
      ensures Replied(digest, ActionRefusal(policy, old(Contents()), digest, Confirm(confirmations)), r)
    {
      ghost var before := Contents();
      if digest !in records { return Err(UnknownMessage); }
      var record := records[digest];
      if record.state != Observed && record.state != FinalityPending { return Err(InvalidTransition); }
      if confirmations < record.confirmations { return Err(ConfirmationsDecrease); }
      var state := if confirmations >= policy.requiredConfirmations && |record.attestations| >= policy.threshold
                   then Attested else FinalityPending;
      record := record.(confirmations := confirmations, state := state);
      Acted(policy, before, digest, Confirm(confirmations), record);
      records := records[digest := record];
      return Ok(record);
    }

    method AttestMessage(digest: Digest, relayerId: string, keyId: string, signature: string, verified: bool)
      returns (r: Result<Record, BridgeError>)
      modifies this
      ensures Contents() == Step(policy, old(Contents()), On(digest, Attest(relayerId, keyId, signature, verified)))
      ensures Replied(digest, ActionRefusal(policy, old(Contents()), digest,
                                            Attest(relayerId, keyId, signature, verified)), r)
    {
      ghost var before := Contents();
      if digest !in records { return Err(UnknownMessage); }
      var record := records[digest];
      if record.state == Executed || record.state == Rejected { return Err(TerminalRecord); }
      if relayerId !in policy.relayers { return Err(UnknownRelayer); }
      if relayerId in record.attestations { return Err(DuplicateAttestation); }
      if digest != DigestOf(record.message) { return Err(DigestMismatch); }
      if !verified { return Err(UnverifiedSignature); }
      if keyId == "" { return Err(KeyIdRequired); }
      if !IsSignatureText(signature) { return Err(InvalidSignatureEncoding); }
      record := record.(attestations := record.attestations[relayerId := Attestation(relayerId, digest, keyId,
                                                                                     signature, verified)]);
      if |record.attestations| >= policy.threshold && record.confirmations >= policy.requiredConfirmations {
        record := record.(state := Attested);
      }
      Acted(policy, before, digest, Attest(relayerId, keyId, signature, verified), record);
      records := records[digest := record];
      return Ok(record);
    }

    method PrepareExecution(digest: Digest) returns (r: Result<Record, BridgeError>)
      modifies this
      ensures Contents() == Step(policy, old(Contents()), On(digest, Prepare))
      ensures Replied(digest, ActionRefusal(policy, old(Contents()), digest, Prepare), r)
    {
      ghost var before := Contents();
      if digest !in records { return Err(UnknownMessage); }
      var record := records[digest];
      if record.state != Attested { return Err(NotAttested); }
      if paused { return Err(RoutePaused); }
      if record.message.value > policy.perTransactionLimit { return Err(PerTransactionLimit); }
      if executedValue + record.message.value > policy.dailyLimit { return Err(DailyLimit); }
      record := record.(state := ExecutionReady);
      Acted(policy, before, digest, Prepare, record);
      records := records[digest := record];
      return Ok(record);
    }

    method MarkExecuted(digest: Digest, transaction: string) returns (r: Result<Record, BridgeError>)
      modifies this
      ensures Contents() == Step(policy, old(Contents()), On(digest, Execute(transaction)))
      ensures Replied(digest, ActionRefusal(policy, old(Contents()), digest, Execute(transaction)), r)
    {
      ghost var before := Contents();
      if digest !in records { return Err(UnknownMessage); }
      var record := records[digest];
      if record.state != ExecutionReady { return Err(NotReady); }
      if !IsTransactionHash(transaction) { return Err(InvalidExecutionTransaction); }
      record := record.(executionTransaction := Some(transaction), state := Executed);
      Acted(policy, before, digest, Execute(transaction), record);
      records := records[digest := record];
      executedValue := executedValue + record.message.value;
      return Ok(record);
    }

    method RejectMessage(digest: Digest, reason: string) returns (r: Result<Record, BridgeError>)
      modifies this
      ensures Contents() == Step(policy, old(Contents()), On(digest, Reject(reason)))
      ensures Replied(digest, ActionRefusal(policy, old(Contents()), digest, Reject(reason)), r)
    {
      ghost var before := Contents();
      if digest !in records { return Err(UnknownMessage); }
      var record := records[digest];
      if record.state == Executed { return Err(AlreadyExecuted); }
      if IsBlank(reason) { return Err(ReasonRequired); }
      record := record.(state := Rejected, rejectionReason := Some(Strip(reason)));
      Acted(policy, before, digest, Reject(reason), record);
      records := records[digest := record];
      return Ok(record);
    }

    method Pause(paused: bool)
      modifies this`paused
      ensures Contents() == Step(policy, old(Contents()), SetPaused(paused))
    {
      this.paused := paused;
    }

    /** The reply is the refusal, or the record as it now stands. */
    ghost predicate Replied(digest: Digest, refusal: Option<BridgeError>, r: Result<Record, BridgeError>)
      reads this
    {
      match refusal
      case Some(e) => r == Err(e)
      case None => digest in records && r == Ok(records[digest])
    }
  }

  /** Storing the advanced record is all that an action does, apart from counting the value
      it executes. */
  lemma Acted(p: Policy, s: State, d: Digest, a: Action, r: Record)
    requires d in s.records && ActionRefusal(p, s, d, a).None? && r == Advance(p, d, s.records[d], a)
    ensures Step(p, s, On(d, a)) ==
            State(s.records[d := r], s.usedTransactions, s.usedNonces,
                  s.executedValue + (if a.Execute? then r.message.value else 0), s.paused)
  {
  }

  lemma PolicyValidIff(p: Policy)
    ensures IsLowerHex(p.routeDigest) <==> forall c | c in p.routeDigest :: '0' <= c <= '9' || 'a' <= c <= 'f'
    ensures p.networks * {"bsc-testnet", "tron-shasta"} != {} <==>
            "bsc-testnet" in p.networks || "tron-shasta" in p.networks
  {
    if forall c | c in p.routeDigest :: '0' <= c <= '9' || 'a' <= c <= 'f' {
      assert forall i | 0 <= i < |p.routeDigest| :: p.routeDigest[i] in p.routeDigest;
    }
    if "bsc-testnet" in p.networks { assert "bsc-testnet" in p.networks * {"bsc-testnet", "tron-shasta"}; }
    if "tron-shasta" in p.networks { assert "tron-shasta" in p.networks * {"bsc-testnet", "tron-shasta"}; }
  }
}
