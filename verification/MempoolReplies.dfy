/** When the mempool admits, keeps and drops a transaction, with every condition written out. */
module MempoolReplies {
  import opened Mempool
  import opened Prelude
  import opened Protocol

  /** The transaction alone is fit for the pool: for its chain, signed and verified, with a nonce not
      consumed and not too far ahead, gas within bounds, fees in order, and covered at its worst. */
  ghost predicate Fit(c: Config, p: Policy, tx: Tx, account: Account, baseFee: int, verified: bool) {
    && tx.chainId == c.chainId && verified && tx.signature != []
    && account.nonce <= tx.nonce <= account.nonce + p.maxNonceGap
    && c.intrinsicGas <= tx.gasLimit <= c.blockGasLimit
    && baseFee <= tx.maxFee && tx.maxPriorityFee <= tx.maxFee
    && tx.value + tx.gasLimit * tx.maxFee <= account.balance
  }

  lemma FitIff(c: Config, p: Policy, tx: Tx, account: Account, baseFee: int, verified: bool)
    ensures Boundary(c, p, tx, account, baseFee, verified).None? <==> Fit(c, p, tx, account, baseFee, verified)
  {
  }

  function Pending(txs: map<Key, Tx>, sender: string): set<Key> {
    set k | k in txs && k.0 == sender
  }

  /** Another transaction of its sender and nonce is pending, and this one offers that much more of both
      fees: at least the given percentage, rounded up. */
  ghost predicate Outbidding(p: Policy, pool: Pool, tx: Tx) {
    var key := (tx.sender, tx.nonce);
    && key in pool.txs
    && 100 * tx.maxFee >= (100 + p.bumpPercent) * pool.txs[key].maxFee
    && 100 * tx.maxPriorityFee >= (100 + p.bumpPercent) * pool.txs[key].maxPriorityFee
  }

  lemma BumpedIff(offer: int, fee: int, percent: int)
    ensures offer >= Bumped(fee, percent) <==> 100 * offer >= (100 + percent) * fee
  {
    var n := fee * (100 + percent);
    assert n == (100 + percent) * fee;
    var q := (n + 99) / 100;
    assert 100 * q <= n + 99 < 100 * q + 100;
  }

  lemma OutbiddingIff(p: Policy, pool: Pool, tx: Tx)
    ensures Outbidding(p, pool, tx) <==> KeyOf(tx) in pool.txs && Outbids(p, pool.txs[KeyOf(tx)], tx)
  {
    if KeyOf(tx) in pool.txs {
      BumpedIff(tx.maxFee, pool.txs[KeyOf(tx)].maxFee, p.bumpPercent);
      BumpedIff(tx.maxPriorityFee, pool.txs[KeyOf(tx)].maxPriorityFee, p.bumpPercent);
    }
  }

  /** There is room for one more, in the pool and for the sender. */
  ghost predicate Room(p: Policy, pool: Pool, tx: Tx) {
    && (tx.sender, tx.nonce) !in pool.txs
    && |pool.txs| < p.maxTransactions && |Pending(pool.txs, tx.sender)| < p.maxPerSender
  }

  ghost predicate Known(c: Config, pool: Pool, tx: Tx) {
    exists k :: k in pool.txs && c.hashOf(pool.txs[k]) == c.hashOf(tx)
  }

  /** A transaction is admitted exactly when it is fit, not pending already, and has room or outbids;
      it then takes its place and nothing else changes. */
  lemma AdmittedIff(c: Config, p: Policy, pool: Pool, tx: Tx, account: Account, baseFee: int, verified: bool)
    requires Invariant(c, p, pool)
    ensures var (r, key) := (Admit(c, p, pool, tx, account, baseFee, verified), (tx.sender, tx.nonce));
            && (r.Ok? <==>
                  && Fit(c, p, tx, account, baseFee, verified) && !Known(c, pool, tx)
                  && (Room(p, pool, tx) || Outbidding(p, pool, tx)))
            && (r.Ok? ==> r.value.0.txs == pool.txs[key := tx])
            && (r.Ok? ==> r.value.1 == if key in pool.txs then Replaced else Admitted)
  {
    FitIff(c, p, tx, account, baseFee, verified);
    OutbiddingIff(p, pool, tx);
    KnownIff(c, p, pool, tx);
    assert Pending(pool.txs, tx.sender) == SenderKeys(pool.txs, tx.sender);
  }

  lemma KnownIff(c: Config, p: Policy, pool: Pool, tx: Tx)
    requires Invariant(c, p, pool)
    ensures Known(c, pool, tx) <==> c.hashOf(tx) in pool.hashes
  {
  }

  /** Why a transaction that is fit is refused. */
  lemma RefusedIff(c: Config, p: Policy, pool: Pool, tx: Tx, account: Account, baseFee: int, verified: bool)
    requires Invariant(c, p, pool) && Fit(c, p, tx, account, baseFee, verified)
    ensures var (r, key) := (Admit(c, p, pool, tx, account, baseFee, verified), (tx.sender, tx.nonce));
            var new' := !Known(c, pool, tx) && key !in pool.txs;
            && (r == Err(DuplicateHash) <==> Known(c, pool, tx))
            && (r == Err(CapacityExceeded) <==> new' && |pool.txs| >= p.maxTransactions)
            && (r == Err(SenderCapacityExceeded) <==>
                  new' && |pool.txs| < p.maxTransactions && |Pending(pool.txs, tx.sender)| >= p.maxPerSender)
            && (r == Err(BumpInsufficient) <==>
                  !Known(c, pool, tx) && key in pool.txs && !Outbidding(p, pool, tx))
  {
    FitIff(c, p, tx, account, baseFee, verified);
    OutbiddingIff(p, pool, tx);
    KnownIff(c, p, pool, tx);
    assert Pending(pool.txs, tx.sender) == SenderKeys(pool.txs, tx.sender);
  }

  /** Why a transaction that is not fit is refused: for the first of these that applies. */
  lemma UnfitIff(c: Config, p: Policy, pool: Pool, tx: Tx, account: Account, baseFee: int, verified: bool)
    ensures var r := Admit(c, p, pool, tx, account, baseFee, verified);
            var ours := tx.chainId == c.chainId && verified;
            var placed := ours && account.nonce <= tx.nonce <= account.nonce + p.maxNonceGap;
            var metered := placed && c.intrinsicGas <= tx.gasLimit <= c.blockGasLimit;
            var priced := metered && baseFee <= tx.maxFee && tx.maxPriorityFee <= tx.maxFee;
            && (r == Err(ChainMismatch) <==> tx.chainId != c.chainId)
            && (r == Err(SignatureRejected) <==> tx.chainId == c.chainId && !verified)
            && (r == Err(NonceConsumed) <==> ours && tx.nonce < account.nonce)
            && (r == Err(NonceGap) <==> ours && tx.nonce >= account.nonce && tx.nonce > account.nonce + p.maxNonceGap)
            && (r == Err(GasOutOfBounds) <==> placed && !metered)
            && (r == Err(FeeBelowBase) <==> metered && tx.maxFee < baseFee)
            && (r == Err(PriorityAboveFee) <==> metered && baseFee <= tx.maxFee && tx.maxPriorityFee > tx.maxFee)
            && (r == Err(CannotCover) <==> priced && account.balance < tx.value + tx.gasLimit * tx.maxFee)
            && (r == Err(SignatureMissing) <==>
                  priced && account.balance >= tx.value + tx.gasLimit * tx.maxFee && tx.signature == [])
  {
  }

  // ------------------------------------------------------------------ dropping

  /** Pruning keeps exactly the pending transactions whose nonce is neither consumed nor too far ahead
      of their sender's account and whose fee cap is not below the base fee. */
  lemma PrunedIff(c: Config, p: Policy, pool: Pool, accounts: Accounts, baseFee: int, k: Key)
    requires Keyed(pool.txs)
    ensures var (kept, nonce) := (Prune(c, p, pool, accounts, baseFee).txs, AccountOf(accounts, k.0).nonce);
            && (k in kept <==> k in pool.txs && nonce <= k.1 <= nonce + p.maxNonceGap && baseFee <= pool.txs[k].maxFee)
            && (k in kept ==> kept[k] == pool.txs[k])
  {
    if k in pool.txs { assert KeyOf(pool.txs[k]) == k; }
  }

  /** In other words: of a transaction that was once fit, pruning keeps exactly what a sender that could
      cover it would now have admitted again. */
  lemma PrunedIffUnfit(c: Config, p: Policy, pool: Pool, accounts: Accounts, baseFee: int, k: Key,
                       account: Account, earlierFee: int)
    requires Keyed(pool.txs) && k in pool.txs && Fit(c, p, pool.txs[k], account, earlierFee, true)
    ensures k in Prune(c, p, pool, accounts, baseFee).txs <==>
            exists balance: nat ::
              Fit(c, p, pool.txs[k], Account(balance, AccountOf(accounts, k.0).nonce), baseFee, true)
  {
    PrunedIff(c, p, pool, accounts, baseFee, k);
    assert KeyOf(pool.txs[k]) == k;
    if k in Prune(c, p, pool, accounts, baseFee).txs {
      assert Fit(c, p, pool.txs[k], Account(account.balance, AccountOf(accounts, k.0).nonce), baseFee, true);
    }
  }

  /** One of the listed transactions is the pending one, by its hash. */
  ghost predicate Listed(c: Config, pool: Pool, txs: seq<Tx>, k: Key) {
    exists i :: 0 <= i < |txs| && (txs[i].sender, txs[i].nonce) == k && k in pool.txs &&
      c.hashOf(pool.txs[k]) == c.hashOf(txs[i])
  }

  lemma ListedSplits(c: Config, pool: Pool, txs: seq<Tx>, k: Key)
    requires txs != []
    ensures var last := txs[|txs| - 1];
            Listed(c, pool, txs, k) <==>
            || Listed(c, pool, txs[..|txs| - 1], k)
            || (KeyOf(last) == k && k in pool.txs && c.hashOf(pool.txs[k]) == c.hashOf(last))
  {
    var rest := txs[..|txs| - 1];
    if Listed(c, pool, rest, k) {
      var i :| 0 <= i < |rest| && (rest[i].sender, rest[i].nonce) == k && k in pool.txs &&
        c.hashOf(pool.txs[k]) == c.hashOf(rest[i]);
      assert txs[i] == rest[i];
    }
  }

  /** Removing included transactions drops exactly the listed ones that are pending. */
  lemma {:induction false} RemovedIff(c: Config, pool: Pool, txs: seq<Tx>, k: Key)
    ensures var left := RemoveAll(c, pool, txs).txs;
            && (k in left <==> k in pool.txs && !Listed(c, pool, txs, k))
            && (k in left ==> left[k] == pool.txs[k])
  {
    if txs != [] {
      RemovedIff(c, pool, txs[..|txs| - 1], k);
      ListedSplits(c, pool, txs, k);
    }
  }

  // ---------------------------------------------------------------------- runs

  /** The event admitted this transaction when it was fit. */
  ghost predicate AdmittedBy(c: Config, p: Policy, e: Event, tx: Tx) {
    e.AdmitTx? && e.tx == tx && Fit(c, p, tx, e.account, e.baseFee, e.verified)
  }

  lemma StepAdmits(c: Config, p: Policy, pool: Pool, e: Event, k: Key)
    requires k in Step(c, p, pool, e).txs
    ensures (k in pool.txs && Step(c, p, pool, e).txs[k] == pool.txs[k]) ||
            AdmittedBy(c, p, e, Step(c, p, pool, e).txs[k])
  {
    match e
    case AdmitTx(tx, account, baseFee, verified) => FitIff(c, p, tx, account, baseFee, verified);
    case RemoveIncluded(txs) => RemovedIff(c, pool, txs, k);
    case PruneStale(_, _) =>
  }

  /** Whatever is pending after any run was admitted in the run, verified and fit. */
  lemma {:induction false} PendingWasAdmitted(c: Config, p: Policy, es: seq<Event>, k: Key) returns (n: nat)
    requires k in Run(c, p, EMPTY, es).txs
    ensures n < |es| && AdmittedBy(c, p, es[n], Run(c, p, EMPTY, es).txs[k])
  {
    if es == [] {
      assert false;
    }
    var (before, last) := (es[..|es| - 1], es[|es| - 1]);
    StepAdmits(c, p, Run(c, p, EMPTY, before), last, k);
    if AdmittedBy(c, p, last, Run(c, p, EMPTY, es).txs[k]) {
      n := |es| - 1;
    } else {
      n := PendingWasAdmitted(c, p, before, k);
      assert before[n] == es[n];
    }
  }

  // -------------------------------------------------------------------- policy

  /** The four limits are positive, and a replacement is never made to double the fee or more. */
  lemma PolicyValidIff(p: Policy)
    ensures p.Valid() <==>
              && 1 <= p.maxTransactions && 1 <= p.maxPerSender && 1 <= p.maxNonceGap
              && 1 <= p.bumpPercent < 101
  {
  }
}
