/** Admission, replacement, removal and pruning of pending transactions. */
module Mempool {
  import opened Prelude
  import opened Protocol

  datatype Policy = Policy(maxTransactions: int, maxPerSender: int, maxNonceGap: int, bumpPercent: int) {
    predicate Valid() {
      0 < maxTransactions && 0 < maxPerSender && 0 < maxNonceGap && 0 < bumpPercent <= 100
    }
  }

  /** Sender and nonce. */
  type Key = (string, int)

  function KeyOf(tx: Tx): Key {
    (tx.sender, tx.nonce)
  }

  datatype Pool = Pool(txs: map<Key, Tx>, hashes: set<string>)

  const EMPTY := Pool(map[], {})

  datatype PoolError =
    | ChainMismatch
    | SignatureRejected
    | NonceConsumed
    | NonceGap
    | GasOutOfBounds
    | FeeBelowBase
    | PriorityAboveFee
    | CannotCover
    | SignatureMissing
    | DuplicateHash
    | CapacityExceeded
    | SenderCapacityExceeded
    | BumpInsufficient
    | GasLimitOutOfBounds
    | PoolNotEmpty
    | ForeignSnapshot
    | DigestMismatch
    | PolicyMismatch
    | HashMismatch

  datatype Status = Admitted | Replaced

  /** The checks on a transaction alone, in their order. */
  function Boundary(c: Config, p: Policy, tx: Tx, account: Account, baseFee: int, verified: bool): Option<PoolError> {
    if tx.chainId != c.chainId then Some(ChainMismatch)
    else if !verified then Some(SignatureRejected)
    else if tx.nonce < account.nonce then Some(NonceConsumed)
    else if tx.nonce - account.nonce > p.maxNonceGap then Some(NonceGap)
    else if tx.gasLimit < c.intrinsicGas || tx.gasLimit > c.blockGasLimit then Some(GasOutOfBounds)
    else if tx.maxFee < baseFee then Some(FeeBelowBase)
    else if tx.maxPriorityFee > tx.maxFee then Some(PriorityAboveFee)
    else if account.balance < tx.value + tx.gasLimit * tx.maxFee then Some(CannotCover)
    else if tx.signature == [] then Some(SignatureMissing)
    else None
  }

  /** The fee after the bump, rounded up. */
  function Bumped(fee: int, percent: int): int {
    (fee * (100 + percent) + 99) / 100
  }

  predicate Outbids(p: Policy, current: Tx, tx: Tx) {
    tx.maxFee >= Bumped(current.maxFee, p.bumpPercent) &&
      tx.maxPriorityFee >= Bumped(current.maxPriorityFee, p.bumpPercent)
  }

  function SenderKeys(txs: map<Key, Tx>, sender: string): set<Key> {
    set k | k in txs && k.0 == sender
  }

  function Admit(c: Config, p: Policy, pool: Pool, tx: Tx, account: Account, baseFee: int, verified: bool)
    : Result<(Pool, Status), PoolError>
  {
    var (error, key, hash) := (Boundary(c, p, tx, account, baseFee, verified), KeyOf(tx), c.hashOf(tx));
    if error.Some? then Err(error.value)
    else if hash in pool.hashes then Err(DuplicateHash)
    else if key !in pool.txs then
      if |pool.txs| >= p.maxTransactions then Err(CapacityExceeded)
      else if |SenderKeys(pool.txs, tx.sender)| >= p.maxPerSender then Err(SenderCapacityExceeded)
      else Ok((Pool(pool.txs[key := tx], pool.hashes + {hash}), Admitted))
    else if !Outbids(p, pool.txs[key], tx) then Err(BumpInsufficient)
    else Ok((Pool(pool.txs[key := tx], pool.hashes - {c.hashOf(pool.txs[key])} + {hash}), Replaced))
  }

  /** Takes a transaction out if exactly it is pending. */
  function Remove(c: Config, pool: Pool, tx: Tx): Pool {
    if KeyOf(tx) in pool.txs && c.hashOf(pool.txs[KeyOf(tx)]) == c.hashOf(tx) then
      Pool(pool.txs - {KeyOf(tx)}, pool.hashes - {c.hashOf(tx)})
    else pool
  }

  function RemoveAll(c: Config, pool: Pool, txs: seq<Tx>): Pool {
    if txs == [] then pool else Remove(c, RemoveAll(c, pool, txs[..|txs| - 1]), txs[|txs| - 1])
  }

  predicate Stale(p: Policy, tx: Tx, account: Account, baseFee: int) {
    tx.nonce < account.nonce || tx.maxFee < baseFee || tx.nonce - account.nonce > p.maxNonceGap
  }

  function Prune(c: Config, p: Policy, pool: Pool, accounts: Accounts, baseFee: int): Pool {
    var kept := map k | k in pool.txs && !Stale(p, pool.txs[k], AccountOf(accounts, k.0), baseFee) :: pool.txs[k];
    Pool(kept, HashesOf(c, kept))
  }

  function HashesOf(c: Config, txs: map<Key, Tx>): set<string> {
    set k | k in txs :: c.hashOf(txs[k])
  }

  // ---------------------------------------------------------------- invariant

  ghost predicate Keyed(txs: map<Key, Tx>) {
    forall k | k in txs :: KeyOf(txs[k]) == k
  }

  ghost predicate DistinctHashes(c: Config, txs: map<Key, Tx>) {
    forall k, k' | k in txs && k' in txs && k != k' :: c.hashOf(txs[k]) != c.hashOf(txs[k'])
  }

  ghost predicate WithinCapacity(p: Policy, txs: map<Key, Tx>) {
    && |txs| <= p.maxTransactions
    && forall sender :: |SenderKeys(txs, sender)| <= p.maxPerSender
  }

  /** The hash index is exactly the hashes of the pending transactions, which are all
      different, and both capacity bounds hold. */
  ghost predicate Invariant(c: Config, p: Policy, pool: Pool) {
    && Keyed(pool.txs)
    && pool.hashes == HashesOf(c, pool.txs)
    && DistinctHashes(c, pool.txs)
    && WithinCapacity(p, pool.txs)
  }

  lemma FewerStayWithin(p: Policy, txs: map<Key, Tx>, txs': map<Key, Tx>)
    requires WithinCapacity(p, txs) && txs'.Keys <= txs.Keys
    ensures WithinCapacity(p, txs')
  {
    Fewer(txs'.Keys, txs.Keys);
    assert |txs'| == |txs'.Keys| && |txs| == |txs.Keys|;
    forall sender
      ensures |SenderKeys(txs', sender)| <= p.maxPerSender
    {
      Fewer(SenderKeys(txs', sender), SenderKeys(txs, sender));
    }
  }

  lemma Fewer<T>(a: set<T>, b: set<T>)
    requires a <= b
    ensures |a| <= |b|
  {
    assert |b - a| == |b| - |a|;
  }

  lemma SenderKeysGrow(txs: map<Key, Tx>, key: Key, tx: Tx, sender: string)
    requires key !in txs
    ensures SenderKeys(txs[key := tx], sender) == SenderKeys(txs, sender) + if sender == key.0 then {key} else {}
    ensures |SenderKeys(txs[key := tx], sender)| == |SenderKeys(txs, sender)| + if sender == key.0 then 1 else 0
  {
    assert SenderKeys(txs[key := tx], sender) == SenderKeys(txs, sender) + if sender == key.0 then {key} else {};
  }

  lemma OneMoreStaysWithin(p: Policy, txs: map<Key, Tx>, key: Key, tx: Tx)
    requires WithinCapacity(p, txs) && key !in txs
    requires |txs| < p.maxTransactions && |SenderKeys(txs, key.0)| < p.maxPerSender
    ensures WithinCapacity(p, txs[key := tx])
  {
    var txs' := txs[key := tx];
    assert txs'.Keys == txs.Keys + {key};
    forall sender
      ensures |SenderKeys(txs', sender)| <= p.maxPerSender
    {
      SenderKeysGrow(txs, key, tx, sender);
    }
  }

  lemma HashesAfterAdd(c: Config, txs: map<Key, Tx>, key: Key, tx: Tx)
    requires key !in txs && c.hashOf(tx) !in HashesOf(c, txs) && DistinctHashes(c, txs)
    ensures HashesOf(c, txs[key := tx]) == HashesOf(c, txs) + {c.hashOf(tx)}
    ensures DistinctHashes(c, txs[key := tx])
  {
    var txs' := txs[key := tx];
    forall h
      ensures h in HashesOf(c, txs') <==> h in HashesOf(c, txs) + {c.hashOf(tx)}
    {
      if h in HashesOf(c, txs) {
        var k :| k in txs && c.hashOf(txs[k]) == h;
        assert k in txs' && txs'[k] == txs[k];
      }
      if h == c.hashOf(tx) { assert txs'[key] == tx; }
    }
    forall k | k in txs
      ensures c.hashOf(txs[k]) != c.hashOf(tx)
    {
      assert c.hashOf(txs[k]) in HashesOf(c, txs);
    }
  }

  lemma HashesAfterRemove(c: Config, txs: map<Key, Tx>, key: Key)
    requires key in txs && DistinctHashes(c, txs)
    ensures HashesOf(c, txs - {key}) == HashesOf(c, txs) - {c.hashOf(txs[key])}
    ensures DistinctHashes(c, txs - {key})
  {
    var txs' := txs - {key};
    forall h
      ensures h in HashesOf(c, txs') <==> h in HashesOf(c, txs) - {c.hashOf(txs[key])}
    {
      if h in HashesOf(c, txs) - {c.hashOf(txs[key])} {
        var k :| k in txs && c.hashOf(txs[k]) == h;
        assert k in txs' && txs'[k] == txs[k];
      }
      if h in HashesOf(c, txs') {
        var k :| k in txs' && c.hashOf(txs'[k]) == h;
        assert k in txs;
      }
    }
  }

  lemma AdmitKeepsInvariant(c: Config, p: Policy, pool: Pool, tx: Tx, account: Account, baseFee: int, verified: bool)
    requires Invariant(c, p, pool)
    ensures var r := Admit(c, p, pool, tx, account, baseFee, verified);
            r.Ok? ==> Invariant(c, p, r.value.0)
  {
    var r := Admit(c, p, pool, tx, account, baseFee, verified);
    if r.Ok? {
      var key := KeyOf(tx);
      if key !in pool.txs {
        HashesAfterAdd(c, pool.txs, key, tx);
        OneMoreStaysWithin(p, pool.txs, key, tx);
      } else {
        HashesAfterRemove(c, pool.txs, key);
        HashesAfterAdd(c, pool.txs - {key}, key, tx);
        assert (pool.txs - {key})[key := tx] == pool.txs[key := tx];
        FewerStayWithin(p, pool.txs, pool.txs[key := tx]);
      }
    }
  }

  lemma {:induction false} RemoveAllKeepsInvariant(c: Config, p: Policy, pool: Pool, txs: seq<Tx>)
    requires Invariant(c, p, pool)
    ensures Invariant(c, p, RemoveAll(c, pool, txs))
  {
    if txs != [] {
      var before := RemoveAll(c, pool, txs[..|txs| - 1]);
      RemoveAllKeepsInvariant(c, p, pool, txs[..|txs| - 1]);
      var key := KeyOf(txs[|txs| - 1]);
      if key in before.txs {
        HashesAfterRemove(c, before.txs, key);
        FewerStayWithin(p, before.txs, before.txs - {key});
      }
    }
  }

  lemma PruneKeepsInvariant(c: Config, p: Policy, pool: Pool, accounts: Accounts, baseFee: int)
    requires Invariant(c, p, pool)
    ensures Invariant(c, p, Prune(c, p, pool, accounts, baseFee))
  {
    FewerStayWithin(p, pool.txs, Prune(c, p, pool, accounts, baseFee).txs);
  }

  datatype Event =
    | AdmitTx(tx: Tx, account: Account, baseFee: int, verified: bool)
    | RemoveIncluded(txs: seq<Tx>)
    | PruneStale(accounts: Accounts, baseFee: int)

  ghost function Step(c: Config, p: Policy, pool: Pool, e: Event): Pool {
    match e
    case AdmitTx(tx, account, baseFee, verified) =>
      (match Admit(c, p, pool, tx, account, baseFee, verified)
       case Ok(r) => r.0
       case Err(_) => pool)
    case RemoveIncluded(txs) => RemoveAll(c, pool, txs)
    case PruneStale(accounts, baseFee) => Prune(c, p, pool, accounts, baseFee)
  }

  ghost function Run(c: Config, p: Policy, pool: Pool, es: seq<Event>): Pool {
    if es == [] then pool else Step(c, p, Run(c, p, pool, es[..|es| - 1]), es[|es| - 1])
  }

  /** Any run of admissions, replacements, removals and prunings keeps the pool consistent. */
  lemma {:induction false} RunKeepsInvariant(c: Config, p: Policy, pool: Pool, es: seq<Event>)
    requires Invariant(c, p, pool)
    ensures Invariant(c, p, Run(c, p, pool, es))
  {
    if es != [] {
      var before := Run(c, p, pool, es[..|es| - 1]);
      RunKeepsInvariant(c, p, pool, es[..|es| - 1]);
      match es[|es| - 1]
      case AdmitTx(tx, account, baseFee, verified) => AdmitKeepsInvariant(c, p, before, tx, account, baseFee, verified);
      case RemoveIncluded(txs) => RemoveAllKeepsInvariant(c, p, before, txs);
      case PruneStale(accounts, baseFee) => PruneKeepsInvariant(c, p, before, accounts, baseFee);
    }
  }

  // ------------------------------------------------------------- replacements

  /** The successive occupants of one sender and nonce, each replacing the one before. */
  ghost predicate Replacements(p: Policy, txs: seq<Tx>) {
    txs != [] && forall i | 0 < i < |txs| :: Outbids(p, txs[i - 1], txs[i])
  }

  function Power(base: int, n: nat): int {
    if n == 0 then 1 else base * Power(base, n - 1)
  }

  lemma PowerPositive(base: int, n: nat)
    requires 0 < base
    ensures 0 < Power(base, n)
  {
  }

  lemma BumpedIsEnough(fee: int, percent: int)
    ensures Bumped(fee, percent) * 100 >= fee * (100 + percent)
    ensures 0 < fee && 0 < percent ==> Bumped(fee, percent) >= fee + 1
  {
    var n := fee * (100 + percent);
    assert (n + 99) / 100 * 100 >= n;
    if 0 < fee && 0 < percent {
      Product(fee, percent);
      assert n == fee * 100 + fee * percent;
    }
  }

  lemma Product(a: int, b: int)
    requires 0 < a && 0 < b
    ensures a * b >= 1
  {
  }

  /** After k replacements with bump b the fee has grown by a factor of at least
      (100 + b)^k / 100^k. */
  lemma {:induction false} ReplacementsCompound(p: Policy, txs: seq<Tx>)
    requires Replacements(p, txs) && 0 < p.bumpPercent
    ensures var k := |txs| - 1;
            txs[k].maxFee * Power(100, k) >= txs[0].maxFee * Power(100 + p.bumpPercent, k)
    decreases |txs|
  {
    var k := |txs| - 1;
    if k > 0 {
      var (before, b) := (txs[..k], 100 + p.bumpPercent);
      assert forall i | 0 <= i < |before| :: before[i] == txs[i];
      ReplacementsCompound(p, before);
      BumpedIsEnough(txs[k - 1].maxFee, p.bumpPercent);
      CompoundStep(txs[k].maxFee, txs[k - 1].maxFee, txs[0].maxFee, b, Power(100, k - 1), Power(b, k - 1), k);
    }
  }

  lemma CompoundStep(last: int, previous: int, first: int, b: int, hundreds: int, powers: int, k: nat)
    requires 0 < k && 0 < b && hundreds == Power(100, k - 1) && powers == Power(b, k - 1)
    requires last * 100 >= previous * b
    requires previous * hundreds >= first * powers
    ensures last * Power(100, k) >= first * Power(b, k)
  {
    PowerPositive(100, k - 1);
    TimesOrdered(previous * b, last * 100, hundreds);
    TimesOrdered(first * powers, previous * hundreds, b);
    calc {
      last * Power(100, k);
      last * (100 * hundreds);
      (last * 100) * hundreds;
    >=
      (previous * b) * hundreds;
      (previous * hundreds) * b;
    >=
      (first * powers) * b;
      first * (b * powers);
      first * Power(b, k);
    }
  }

  lemma {:induction false} FeesClimb(p: Policy, txs: seq<Tx>)
    requires Replacements(p, txs) && 0 < p.bumpPercent && 0 < txs[0].maxFee
    ensures txs[|txs| - 1].maxFee >= txs[0].maxFee + (|txs| - 1)
    decreases |txs|
  {
    var k := |txs| - 1;
    if k > 0 {
      var before := txs[..k];
      assert forall i | 0 <= i < |before| :: before[i] == txs[i];
      FeesClimb(p, before);
      BumpedIsEnough(txs[k - 1].maxFee, p.bumpPercent);
    }
  }

  /** A sender with balance B can replace a transaction fewer than B / g times, g being the
      intrinsic gas: each replacement costs at least one unit of fee per unit of gas more. */
  lemma ReplacementsAreBounded(c: Config, p: Policy, txs: seq<Tx>, account: Account, baseFee: int)
    requires c.Valid() && p.Valid() && Replacements(p, txs) && 0 < txs[0].maxFee
    requires var last := txs[|txs| - 1]; 0 <= last.value && Boundary(c, p, last, account, baseFee, true).None?
    ensures (|txs| - 1) * c.intrinsicGas < account.balance
  {
    var (last, k) := (txs[|txs| - 1], |txs| - 1);
    FeesClimb(p, txs);
    TimesOrdered(k + 1, last.maxFee, c.intrinsicGas);
    TimesOrdered(c.intrinsicGas, last.gasLimit, last.maxFee);
    assert (k + 1) * c.intrinsicGas == k * c.intrinsicGas + c.intrinsicGas;
  }

  /** An admission that replaces links the old occupant of the key to the new one. */
  lemma ReplacedMeansOutbid(c: Config, p: Policy, pool: Pool, tx: Tx, account: Account, baseFee: int, verified: bool)
    ensures var r := Admit(c, p, pool, tx, account, baseFee, verified);
            && (r.Ok? && r.value.1 == Replaced <==>
                  && Boundary(c, p, tx, account, baseFee, verified).None?
                  && c.hashOf(tx) !in pool.hashes
                  && KeyOf(tx) in pool.txs && Outbids(p, pool.txs[KeyOf(tx)], tx))
            && (r.Ok? ==> KeyOf(tx) in r.value.0.txs && r.value.0.txs[KeyOf(tx)] == tx
                          && forall k | k != KeyOf(tx) :: k in pool.txs <==> k in r.value.0.txs)
  {
  }
}
