/** When the bridge accepts what it is asked, and what that leaves, with every condition written out;
    and from it, what any run guarantees about a record. */
module BridgeReplies {
  import opened Bridge
  import opened Prelude

  // ---------------------------------------------------------------------- text

  predicate IsHexCharacter(c: char) {
    '0' <= c <= '9' || 'a' <= c <= 'f' || 'A' <= c <= 'F'
  }

  /** Hexadecimal digits of either case, perhaps after 0x. */
  ghost predicate IsHexText(s: string, digits: nat) {
    exists body :: (s == body || s == "0x" + body) && |body| == digits && forall c | c in body :: IsHexCharacter(c)
  }

  lemma HexIff(s: string)
    ensures IsHex(s) <==> forall c | c in s :: IsHexCharacter(c)
  {
    if IsHex(s) {
      forall c | c in s
        ensures IsHexCharacter(c)
      {
        var i :| 0 <= i < |s| && s[i] == c;
        assert IsHexDigit(s[i]);
      }
    }
    if forall c | c in s :: IsHexCharacter(c) {
      forall i | 0 <= i < |s|
        ensures IsHexDigit(s[i])
      {
        assert s[i] in s;
      }
    }
  }

  lemma PrefixedIsNoHex(s: string)
    requires |s| >= 2 && s[1] == 'x'
    ensures exists c :: c in s && !IsHexCharacter(c)
  {
    assert s[1] in s && !IsHexCharacter(s[1]);
  }

  lemma HexTextIff(s: string, digits: nat)
    ensures IsHexText(s, digits) <==> |WithoutPrefix(s)| == digits && IsHex(WithoutPrefix(s))
  {
    var stripped := WithoutPrefix(s);
    HexIff(stripped);
    if |stripped| == digits && IsHex(stripped) {
      assert s == stripped || s == "0x" + stripped;
    }
    if body :| (s == body || s == "0x" + body) && |body| == digits && forall c | c in body :: IsHexCharacter(c) {
      if s == body {
        if stripped != s { PrefixedIsNoHex(s); }
      } else {
        assert s[2..] == body;
      }
    }
  }

  lemma TransactionHashIff(s: string)
    ensures IsTransactionHash(s) <==> IsHexText(s, 64)
  {
    HexTextIff(s, 64);
  }

  lemma SignatureTextIff(s: string)
    ensures IsSignatureText(s) <==> exists digits: nat | 128 <= digits :: IsHexText(s, digits)
  {
    HexTextIff(s, |WithoutPrefix(s)|);
    if digits: nat :| 128 <= digits && IsHexText(s, digits) { HexTextIff(s, digits); }
  }

  // ------------------------------------------------------------------- replies

  /** A message of this route, complete and in order. */
  ghost predicate OnRoute(p: Policy, m: Message) {
    var d := m.details;
    && d.schemaVersion == 1 && d.routeDigest == p.routeDigest
    && d.governance == "JAIOS Institutional Governance" && d.notice == "Public Testnet / No Monetary Value"
    && {m.sourceNetwork, d.destinationNetwork} <= p.networks && m.sourceNetwork != d.destinationNetwork
    && d.direction == m.sourceNetwork + "->" + d.destinationNetwork
    && 0 <= m.nonce && 0 <= d.sourceBlock && IsHexText(m.sourceTransaction, 64) && 1 <= m.value
    && ((d.assetType == "fungible" && d.tokenId == None)
        || (d.assetType == "nft" && exists id :: 0 <= id && d.tokenId == Some(id)))
    && forall text | text in {d.sourceAsset, d.destinationAsset, d.sender, d.recipient} :: !IsBlank(text)
  }

  lemma ValidMessageIff(p: Policy, m: Message)
    ensures ValidMessage(p, m) <==> OnRoute(p, m)
  {
    TransactionHashIff(m.sourceTransaction);
    if m.details.assetType == "nft" && m.details.tokenId.Some? {
      assert m.details.tokenId == Some(m.details.tokenId.value);
    }
    assert m.details.sourceAsset in
           {m.details.sourceAsset, m.details.destinationAsset, m.details.sender, m.details.recipient};
  }

  /** A message is recorded exactly when it is on the route and neither it, nor its source transaction,
      nor its source nonce has been used; it starts out observed, and is all that is new. */
  lemma ObservedIff(p: Policy, s: State, m: Message)
    ensures var (refusal, s') := (ObserveRefusal(p, s, m), Step(p, s, Observe(m)));
            && (refusal.None? <==>
                  && OnRoute(p, m) && DigestOf(m) !in s.records
                  && m.sourceTransaction !in s.usedTransactions && (m.sourceNetwork, m.nonce) !in s.usedNonces)
            && (refusal.Some? ==> s' == s)
            && (refusal.None? ==>
                  s' == State(s.records[DigestOf(m) := Record(m, Observed, 0, map[], None, None)],
                              s.usedTransactions + {m.sourceTransaction}, s.usedNonces + {(m.sourceNetwork, m.nonce)},
                              s.executedValue, s.paused))
            && (refusal == Some(InvalidMessage) <==> !OnRoute(p, m))
            && (refusal == Some(MessageReplay) <==> OnRoute(p, m) && DigestOf(m) in s.records)
            && (refusal == Some(TransactionReplay) <==>
                  OnRoute(p, m) && DigestOf(m) !in s.records && m.sourceTransaction in s.usedTransactions)
            && (refusal == Some(NonceReplay) <==>
                  && OnRoute(p, m) && DigestOf(m) !in s.records && m.sourceTransaction !in s.usedTransactions
                  && (m.sourceNetwork, m.nonce) in s.usedNonces)
  {
    ValidMessageIff(p, m);
  }

  /** Only the record of this digest differs. */
  ghost predicate OnlyRecord(s: State, s': State, d: Digest) {
    && s'.records.Keys == s.records.Keys
    && (forall x | x in s.records && x != d :: s'.records[x] == s.records[x])
    && s'.usedTransactions == s.usedTransactions && s'.usedNonces == s.usedNonces && s'.paused == s.paused
  }

  ghost predicate Pending(p: Policy, r: Record) {
    |r.attestations| < p.threshold || r.confirmations < p.requiredConfirmations
  }

  lemma ConfirmedIff(p: Policy, s: State, d: Digest, confirmations: int)
    requires d in s.records
    ensures var (r, refusal, s') := (s.records[d], ActionRefusal(p, s, d, Confirm(confirmations)),
                                     Step(p, s, On(d, Confirm(confirmations))));
            && (refusal.None? <==>
                  (r.state == Observed || r.state == FinalityPending) && confirmations >= r.confirmations)
            && (refusal == Some(InvalidTransition) <==> r.state != Observed && r.state != FinalityPending)
            && (refusal == Some(ConfirmationsDecrease) <==>
                  (r.state == Observed || r.state == FinalityPending) && confirmations < r.confirmations)
            && (if refusal.Some? then s' == s
                else
                  && OnlyRecord(s, s', d) && s'.executedValue == s.executedValue
                  && s'.records[d] == Record(r.message, s'.records[d].state, confirmations, r.attestations,
                                             r.executionTransaction, r.rejectionReason)
                  && s'.records[d].state == if Pending(p, s'.records[d]) then FinalityPending else Attested)
  {
  }

  lemma AttestedIff(p: Policy, s: State, d: Digest, relayer: string, keyId: string, signature: string, verified: bool)
    requires d in s.records
    ensures var a := Attest(relayer, keyId, signature, verified);
            var (r, refusal, s') := (s.records[d], ActionRefusal(p, s, d, a), Step(p, s, On(d, a)));
            && (refusal.None? <==>
                  && r.state != Executed && r.state != Rejected && relayer in p.relayers
                  && relayer !in r.attestations && d == DigestOf(r.message)
                  && verified && keyId != "" && exists digits: nat | 128 <= digits :: IsHexText(signature, digits))
            && (if refusal.Some? then s' == s
                else
                  && OnlyRecord(s, s', d) && s'.executedValue == s.executedValue
                  && s'.records[d] == Record(r.message, s'.records[d].state, r.confirmations,
                       r.attestations[relayer := Attestation(relayer, d, keyId, signature, verified)],
                       r.executionTransaction, r.rejectionReason)
                  && s'.records[d].state == if Pending(p, s'.records[d]) then r.state else Attested)
  {
    SignatureTextIff(signature);
  }

  lemma AttestationRefusedFor(p: Policy, s: State, d: Digest, relayer: string, keyId: string, signature: string,
                              verified: bool)
    requires d in s.records
    ensures var (r, refusal) := (s.records[d], ActionRefusal(p, s, d, Attest(relayer, keyId, signature, verified)));
            var live := r.state != Executed && r.state != Rejected;
            var new' := live && relayer in p.relayers && relayer !in r.attestations && d == DigestOf(r.message);
            && (refusal == Some(TerminalRecord) <==> !live)
            && (refusal == Some(UnknownRelayer) <==> live && relayer !in p.relayers)
            && (refusal == Some(DuplicateAttestation) <==> live && relayer in p.relayers && relayer in r.attestations)
            && (refusal == Some(UnverifiedSignature) <==> new' && !verified)
            && (refusal == Some(KeyIdRequired) <==> new' && verified && keyId == "")
            && (refusal == Some(InvalidSignatureEncoding) <==>
                  new' && verified && keyId != "" &&
                  forall digits: nat | 128 <= digits :: !IsHexText(signature, digits))
            && (refusal == Some(DigestMismatch) <==>
                  live && relayer in p.relayers && relayer !in r.attestations && d != DigestOf(r.message))
  {
    SignatureTextIff(signature);
  }

  lemma PreparedIff(p: Policy, s: State, d: Digest)
    requires d in s.records
    ensures var (r, refusal, s') := (s.records[d], ActionRefusal(p, s, d, Prepare), Step(p, s, On(d, Prepare)));
            && (refusal.None? <==>
                  && r.state == Attested && !s.paused && r.message.value <= p.perTransactionLimit
                  && s.executedValue + r.message.value <= p.dailyLimit)
            && (refusal == Some(NotAttested) <==> r.state != Attested)
            && (refusal == Some(RoutePaused) <==> r.state == Attested && s.paused)
            && (refusal == Some(PerTransactionLimit) <==>
                  r.state == Attested && !s.paused && r.message.value > p.perTransactionLimit)
            && (refusal == Some(DailyLimit) <==>
                  && r.state == Attested && !s.paused && r.message.value <= p.perTransactionLimit
                  && s.executedValue + r.message.value > p.dailyLimit)
            && (if refusal.Some? then s' == s
                else OnlyRecord(s, s', d) && s'.executedValue == s.executedValue
                     && s'.records[d] == Record(r.message, ExecutionReady, r.confirmations, r.attestations,
                                                r.executionTransaction, r.rejectionReason))
  {
  }

  lemma ExecutedIff(p: Policy, s: State, d: Digest, transaction: string)
    requires d in s.records
    ensures var (r, refusal, s') := (s.records[d], ActionRefusal(p, s, d, Execute(transaction)),
                                     Step(p, s, On(d, Execute(transaction))));
            && (refusal.None? <==> r.state == ExecutionReady && IsHexText(transaction, 64))
            && (refusal == Some(NotReady) <==> r.state != ExecutionReady)
            && (refusal == Some(InvalidExecutionTransaction) <==>
                r.state == ExecutionReady && !IsHexText(transaction, 64))
            && (if refusal.Some? then s' == s
                else OnlyRecord(s, s', d) && s'.executedValue == s.executedValue + r.message.value
                     && s'.records[d] == Record(r.message, Executed, r.confirmations, r.attestations, Some(transaction),
                                                r.rejectionReason))
  {
    TransactionHashIff(transaction);
  }

  lemma RejectedIff(p: Policy, s: State, d: Digest, reason: string)
    requires d in s.records
    ensures var (r, refusal, s') := (s.records[d], ActionRefusal(p, s, d, Reject(reason)),
                                     Step(p, s, On(d, Reject(reason))));
            && (refusal.None? <==> r.state != Executed && !IsBlank(reason))
            && (refusal == Some(AlreadyExecuted) <==> r.state == Executed)
            && (refusal == Some(ReasonRequired) <==> r.state != Executed && IsBlank(reason))
            && (if refusal.Some? then s' == s
                else OnlyRecord(s, s', d) && s'.executedValue == s.executedValue
                     && s'.records[d] == Record(r.message, Rejected, r.confirmations, r.attestations,
                                                r.executionTransaction, Some(Strip(reason))))
  {
  }

  lemma UnknownIsRefused(p: Policy, s: State, d: Digest, a: Action)
    requires d !in s.records
    ensures ActionRefusal(p, s, d, a) == Some(UnknownMessage) && Step(p, s, On(d, a)) == s
  {
  }

  lemma PausingOnlyPauses(p: Policy, s: State, paused: bool)
    ensures Step(p, s, SetPaused(paused)) == State(s.records, s.usedTransactions, s.usedNonces, s.executedValue, paused)
  {
  }

  // ---------------------------------------------------------------------- runs

  /** Enough relayers of the policy have attested, each with a verified signature over this digest. */
  ghost predicate WellAttested(p: Policy, d: Digest, r: Record) {
    && |r.attestations| >= p.threshold && r.attestations.Keys <= p.relayers
    && forall id | id in r.attestations ::
         r.attestations[id].relayerId == id && r.attestations[id].digest == d && r.attestations[id].verified
  }

  /** In every run: a record that is not rejected waits exactly as long as attestations or confirmations
      are short of the policy; so whatever is attested, ready or executed has both. */
  lemma WaitsExactlyWhilePending(p: Policy, paused: bool, es: seq<Event>, d: Digest)
    requires p.ValidLimits() && d in Run(p, Start(paused), es).records
    ensures var r := Run(p, Start(paused), es).records[d];
            && (r.state != Rejected ==>
                  (r.state == Observed || r.state == FinalityPending <==>
                   |r.attestations| < p.threshold || r.confirmations < p.requiredConfirmations))
            && (r.state in {Attested, ExecutionReady, Executed} ==>
                  WellAttested(p, d, r) && r.confirmations >= p.requiredConfirmations)
  {
    RunKeepsInvariant(p, paused, es);
    assert SoundRecord(p, d, Run(p, Start(paused), es).records[d]);
  }

  /** In every run a recorded message was on the route when it came, by an event of the run. */
  lemma {:induction false} RecordedWasObserved(p: Policy, paused: bool, es: seq<Event>, d: Digest) returns (n: nat)
    requires d in Run(p, Start(paused), es).records
    ensures n < |es| && es[n] == Observe(Run(p, Start(paused), es).records[d].message)
    ensures OnRoute(p, Run(p, Start(paused), es).records[d].message)
    ensures d == DigestOf(Run(p, Start(paused), es).records[d].message)
  {
    if es == [] {
      assert false;
    }
    var (before, last) := (es[..|es| - 1], es[|es| - 1]);
    var s := Run(p, Start(paused), before);
    if d in s.records {
      n := RecordedWasObserved(p, paused, before, d);
      assert es[n] == before[n];
    } else {
      n := |es| - 1;
      ValidMessageIff(p, last.message);
    }
  }
}
