/** The mempool as the mutable object a node keeps. */
module TransactionPools {
  import opened Candidate
  import opened Mempool
  import opened MempoolSnapshot
  import opened Ordering
  import opened Prelude
  import opened Protocol

  datatype CandidateDigest = CandidateDigest(chainId: int, gasLimit: int, gasUsed: int, hashes: seq<string>)

  datatype BlockCandidate = BlockCandidate(transactions: seq<Tx>, gasLimit: int, gasUsed: int, digest: CandidateDigest)

  class TransactionPool {
    const config: Config
    const policy: Policy
    var transactions: map<Key, Tx>
    var hashes: set<string>

    ghost function Contents(): Pool
      reads this
    {
      Pool(transactions, hashes)
    }

    ghost predicate Valid()
      reads this
    {
      config.Valid() && policy.Valid() && Invariant(config, policy, Contents())
    }

    constructor (config: Config, policy: Policy)
      requires config.Valid() && policy.Valid()
      ensures Valid() && Contents() == EMPTY
      ensures this.config == config && this.policy == policy
    {
      this.config, this.policy := config, policy;
      transactions, hashes := map[], {};
      new;
      assert forall sender :: SenderKeys(transactions, sender) == {};
    }

    method AdmitTransaction(tx: Tx, account: Account, baseFee: int, verifier: Tx -> bool)
      returns (r: Result<Status, PoolError>)
      requires Valid()
      modifies this
      ensures Valid()
      ensures match Admit(config, policy, old(Contents()), tx, account, baseFee, verifier(tx))
              case Ok(done) => Contents() == done.0 && r == Ok(done.1)
              case Err(e) => Contents() == old(Contents()) && r == Err(e)
    {
      AdmitKeepsInvariant(config, policy, Contents(), tx, account, baseFee, verifier(tx));
      var error := Boundary(config, policy, tx, account, baseFee, verifier(tx));
      if error.Some? { return Err(error.value); }
      var key, hash := KeyOf(tx), config.hashOf(tx);
      if hash in hashes { return Err(DuplicateHash); }
      if key !in transactions {
        if |transactions| >= policy.maxTransactions { return Err(CapacityExceeded); }
        if |SenderKeys(transactions, tx.sender)| >= policy.maxPerSender { return Err(SenderCapacityExceeded); }
        transactions, hashes := transactions[key := tx], hashes + {hash};
        return Ok(Admitted);
      }
      var current := transactions[key];
      if !Outbids(policy, current, tx) { return Err(BumpInsufficient); }
      hashes := hashes - {config.hashOf(current)};
      transactions, hashes := transactions[key := tx], hashes + {hash};
      return Ok(Replaced);
    }

    method RemoveIncludedTransactions(txs: seq<Tx>)
      requires Valid()
      modifies this
      ensures Valid() && Contents() == RemoveAll(config, old(Contents()), txs)
    {
      ghost var before := Contents();
      for i := 0 to |txs|
        invariant Contents() == RemoveAll(config, before, txs[..i])
      {
        assert txs[..i + 1][..i] == txs[..i];
        var key := KeyOf(txs[i]);
        if key in transactions && config.hashOf(transactions[key]) == config.hashOf(txs[i]) {
          var current := transactions[key];
          transactions := transactions - {key};
          hashes := hashes - {config.hashOf(current)};
        }
      }
      assert txs[..|txs|] == txs;
      RemoveAllKeepsInvariant(config, policy, before, txs);
    }

    /** Drops what can no longer be included and reports the dropped hashes in order. */
    method PruneTransactions(accounts: Accounts, baseFee: int) returns (removed: seq<string>)
      requires Valid()
      modifies this
      ensures Valid() && Contents() == Prune(config, policy, old(Contents()), accounts, baseFee)
      ensures removed == SortNames(old(hashes) - hashes)
    {
      ghost var before := Contents();
      var dropped := DropStale(accounts, baseFee);
      PruneKeepsInvariant(config, policy, before, accounts, baseFee);
      PrunedAll(config, policy, before, Contents(), accounts, baseFee, dropped);
      return SortNames(dropped);
    }

    /** Takes out the stale transactions one by one and collects their hashes. */
    method DropStale(accounts: Accounts, baseFee: int) returns (dropped: set<string>)
      requires DistinctHashes(config, transactions) && hashes == HashesOf(config, transactions)
      modifies this
      ensures Pruning(config, policy, old(Contents()), Contents(), {}, dropped, accounts, baseFee)
    {
      ghost var before := Contents();
      var rest := transactions.Keys;
      dropped := {};
      while rest != {}
        invariant Pruning(config, policy, before, Contents(), rest, dropped, accounts, baseFee)
        decreases rest
      {
        var key :| key in rest;
        PruningStep(config, policy, before, Contents(), rest, dropped, key, accounts, baseFee);
        rest := rest - {key};
        var tx := transactions[key];
        if Stale(policy, tx, AccountOf(accounts, key.0), baseFee) {
          transactions := transactions - {key};
          hashes := hashes - {config.hashOf(tx)};
          dropped := dropped + {config.hashOf(tx)};
        }
      }
    }

    /** Every sender's executable head, whatever the order of the senders. */
    method Executable(next: Nonces, baseFee: int) returns (heads: seq<Key>)
      ensures forall k :: k in heads <==> k in Heads(transactions, next, baseFee)
    {
      heads := [];
      var senders := set k | k in transactions :: k.0;
      while senders != {}
        invariant forall k :: k in heads <==> k in Heads(transactions, next, baseFee) && k.0 !in senders
        decreases senders
      {
        var sender :| sender in senders;
        senders := senders - {sender};
        var key := (sender, NextOf(next, sender));
        if key in transactions && Payable(transactions[key], baseFee) {
          heads := heads + [key];
        }
      }
    }

    method Minimum(heads: seq<Key>, baseFee: int) returns (best: Key)
      requires DistinctHashes(config, transactions)
      requires heads != [] && forall i | 0 <= i < |heads| :: heads[i] in transactions
      ensures IsBest(config, transactions, baseFee, (set k | k in heads), best)
    {
      best := heads[0];
      for i := 1 to |heads|
        invariant best in heads
        invariant forall j | 0 <= j < i :: heads[j] == best || Preferred(config, transactions, baseFee, best, heads[j])
      {
        var k := heads[i];
        if Preferred(config, transactions, baseFee, k, best) {
          forall j | 0 <= j < i && heads[j] != best
            ensures Preferred(config, transactions, baseFee, k, heads[j])
          {
            PreferredTransitive(config, transactions, baseFee, k, best, heads[j]);
          }
          best := k;
        } else if k != best {
          PreferredTotal(config, transactions, baseFee, k, best);
        }
      }
    }

    method BuildCandidate(accounts: Accounts, baseFee: int, gasLimit: Option<int>)
      returns (r: Result<BlockCandidate, PoolError>)
      requires Valid()
      ensures var limit := if gasLimit.Some? then gasLimit.value else config.blockGasLimit;
              && (r.Ok? <==> 0 < limit <= config.blockGasLimit)
              && (r.Err? ==> r.error == GasLimitOutOfBounds)
              && (r.Ok? ==>
                    var picks := Selection(config, transactions, accounts, baseFee, limit);
                    && r.value.gasLimit == limit
                    && r.value.gasUsed == |picks| * config.intrinsicGas
                    && IsContents(transactions, picks, r.value.transactions)
                    && r.value.digest == CandidateDigest(config.chainId, limit, r.value.gasUsed,
                                                         HashList(config, r.value.transactions)))
    {
      var limit := if gasLimit.Some? then gasLimit.value else config.blockGasLimit;
      if limit <= 0 || limit > config.blockGasLimit { return Err(GasLimitOutOfBounds); }
      var selected, gasUsed := Fill(accounts, baseFee, limit);
      return Ok(BlockCandidate(selected, limit, gasUsed,
                               CandidateDigest(config.chainId, limit, gasUsed, HashList(config, selected))));
    }

    /** Takes the best executable head while its intrinsic gas still fits. */
    method Fill(accounts: Accounts, baseFee: int, limit: int) returns (selected: seq<Tx>, gasUsed: int)
      requires config.Valid() && 0 < limit && Keyed(transactions) && DistinctHashes(config, transactions)
      ensures var picks := Selection(config, transactions, accounts, baseFee, limit);
              IsContents(transactions, picks, selected) && gasUsed == |picks| * config.intrinsicGas
    {
      var next := StartNonces(accounts);
      selected, gasUsed := [], 0;
      ghost var picks: seq<Key> := [];
      FillingStarts(config, transactions, accounts, baseFee, limit);
      while gasUsed + config.intrinsicGas <= limit
        invariant Filling(config, transactions, accounts, next, baseFee, limit, picks, selected, gasUsed)
        decreases Affordable(config, limit) - |picks|
      {
        var key := Choose(next, baseFee);
        if key.None? { break; }
        var tx := transactions[key.value];
        FillingStep(config, transactions, accounts, next, baseFee, limit, picks, selected, gasUsed, key.value);
        selected, picks := selected + [tx], picks + [key.value];
        next := next[tx.sender := tx.nonce + 1];
        gasUsed := gasUsed + config.intrinsicGas;
      }
      FillingEnds(config, transactions, accounts, next, baseFee, limit, picks, selected, gasUsed);
    }

    /** The best executable head, if there is one. */
    method Choose(next: Nonces, baseFee: int) returns (key: Option<Key>)
      requires DistinctHashes(config, transactions)
      ensures var heads := Heads(transactions, next, baseFee);
              && (key.None? <==> heads == {})
              && (key.Some? ==> key.value == Best(config, transactions, baseFee, heads))
    {
      var executable := Executable(next, baseFee);
      ghost var heads := Heads(transactions, next, baseFee);
      if executable == [] {
        NoHeads(executable, heads);
        return None;
      }
      assert forall i | 0 <= i < |executable| :: executable[i] in executable;
      var best := Minimum(executable, baseFee);
      assert (set k | k in executable) == heads;
      BestIsUnique(config, transactions, baseFee, heads, best, Best(config, transactions, baseFee, heads));
      return Some(best);
    }

    function ExportSnapshot(): Snapshot
      reads this
    {
      Export(config, policy, Pool(transactions, hashes))
    }

    /** Restores into an empty pool; on any failure the pool is untouched. */
    method RestoreSnapshot(snapshot: Snapshot, accounts: Accounts, baseFee: int, verifier: Tx -> bool)
      returns (r: Result<seq<string>, PoolError>)
      requires Valid()
      modifies this
      ensures Valid()
      ensures match Restore(config, policy, old(Contents()), snapshot, accounts, baseFee, verifier)
              case Ok(pool) => Contents() == pool && r == Ok(RecordedHashes(snapshot.body.transactions))
              case Err(e) => Contents() == old(Contents()) && r == Err(e)
    {
      if transactions != map[] { return Err(PoolNotEmpty); }
      if snapshot.body.schema != SCHEMA || snapshot.body.chainId != config.chainId { return Err(ForeignSnapshot); }
      if snapshot.digest != SnapshotDigest(snapshot.body) { return Err(DigestMismatch); }
      if snapshot.body.policy != policy { return Err(PolicyMismatch); }
      var records := snapshot.body.transactions;
      var restored := new TransactionPool(config, policy);
      var recorded: seq<string> := [];
      for i := 0 to |records|
        invariant restored.Valid() && fresh(restored)
        invariant restored.config == config && restored.policy == policy
        invariant AdmitRecords(config, policy, records[..i], accounts, baseFee, verifier) == Ok(restored.Contents())
        invariant recorded == RecordedHashes(records[..i])
        invariant Contents() == old(Contents())
      {
        var tx := records[i].tx;
        AdmitNextRecord(config, policy, records, i, restored.Contents(), accounts, baseFee, verifier);
        if records[i].hash != config.hashOf(tx) { return Err(HashMismatch); }
        var admitted := restored.AdmitTransaction(tx, AccountOf(accounts, tx.sender), baseFee, verifier);
        if admitted.Err? { return Err(admitted.error); }
        recorded := recorded + [config.hashOf(tx)];
      }
      assert records[..|records|] == records;
      transactions, hashes := restored.transactions, restored.hashes;
      return Ok(recorded);
    }
  }

  /** The hashes of what is left and of what was dropped make up the hashes of before. */
  ghost predicate HashesSplit(c: Config, before: Pool, now: Pool, dropped: set<string>) {
    && DistinctHashes(c, now.txs) && now.hashes == HashesOf(c, now.txs)
    && now.hashes + dropped == before.hashes && now.hashes !! dropped
  }

  /** The transactions with the stale ones outside `rest` taken out. */
  ghost predicate Pruned(p: Policy, txs: map<Key, Tx>, now: map<Key, Tx>, rest: set<Key>, accounts: Accounts,
                         baseFee: int)
  {
    && (forall k | k in now :: k in txs && now[k] == txs[k])
    && (forall k | k in txs :: k in now <==> k in rest || !Stale(p, txs[k], AccountOf(accounts, k.0), baseFee))
  }

  lemma PrunedStep(p: Policy, txs: map<Key, Tx>, now: map<Key, Tx>, rest: set<Key>, key: Key, accounts: Accounts,
                   baseFee: int)
    requires Pruned(p, txs, now, rest, accounts, baseFee) && key in rest && rest <= txs.Keys
    ensures key in now
    ensures Pruned(p, txs, if Stale(p, now[key], AccountOf(accounts, key.0), baseFee) then now - {key} else now,
                   rest - {key}, accounts, baseFee)
  {
  }

  /** The loop so far: what is left, and the hashes of what was dropped. */
  ghost predicate Pruning(c: Config, p: Policy, before: Pool, now: Pool, rest: set<Key>, dropped: set<string>,
                          accounts: Accounts, baseFee: int)
  {
    && rest <= before.txs.Keys
    && Pruned(p, before.txs, now.txs, rest, accounts, baseFee)
    && HashesSplit(c, before, now, dropped)
  }

  lemma PruningStep(c: Config, p: Policy, before: Pool, now: Pool, rest: set<Key>, dropped: set<string>, key: Key,
                    accounts: Accounts, baseFee: int)
    requires Pruning(c, p, before, now, rest, dropped, accounts, baseFee) && key in rest
    ensures key in now.txs
    ensures if Stale(p, now.txs[key], AccountOf(accounts, key.0), baseFee)
            then var hash := c.hashOf(now.txs[key]);
                 Pruning(c, p, before, Pool(now.txs - {key}, now.hashes - {hash}), rest - {key}, dropped + {hash},
                         accounts, baseFee)
            else Pruning(c, p, before, now, rest - {key}, dropped, accounts, baseFee)
  {
    PrunedStep(p, before.txs, now.txs, rest, key, accounts, baseFee);
    SplitStep(c, before, now, dropped, key);
  }

  lemma PrunedAll(c: Config, p: Policy, before: Pool, now: Pool, accounts: Accounts, baseFee: int, dropped: set<string>)
    requires Pruned(p, before.txs, now.txs, {}, accounts, baseFee) && HashesSplit(c, before, now, dropped)
    ensures now == Prune(c, p, before, accounts, baseFee)
    ensures dropped == before.hashes - now.hashes
  {
    assert now.txs == Prune(c, p, before, accounts, baseFee).txs;
  }

  lemma SplitStep(c: Config, before: Pool, now: Pool, dropped: set<string>, key: Key)
    requires HashesSplit(c, before, now, dropped) && key in now.txs
    ensures var hash := c.hashOf(now.txs[key]);
            HashesSplit(c, before, Pool(now.txs - {key}, now.hashes - {hash}), dropped + {hash})
  {
    HashesAfterRemove(c, now.txs, key);
    assert c.hashOf(now.txs[key]) in HashesOf(c, now.txs);
  }

  function RecordedHashes(records: seq<TxRecord>): seq<string> {
    if records == [] then [] else RecordedHashes(records[..|records| - 1]) + [records[|records| - 1].hash]
  }

  lemma {:induction false} FirstRefusalStays(c: Config, p: Policy, records: seq<TxRecord>, n: nat, accounts: Accounts,
                                             baseFee: int, verifier: Tx -> bool)
    requires n <= |records| && AdmitRecords(c, p, records[..n], accounts, baseFee, verifier).Err?
    ensures AdmitRecords(c, p, records, accounts, baseFee, verifier) ==
            AdmitRecords(c, p, records[..n], accounts, baseFee, verifier)
  {
    if n == |records| {
      assert records[..n] == records;
    } else {
      assert records[..|records| - 1][..n] == records[..n];
      FirstRefusalStays(c, p, records[..|records| - 1], n, accounts, baseFee, verifier);
    }
  }

  lemma AdmitNextRecord(c: Config, p: Policy, records: seq<TxRecord>, i: nat, pool: Pool, accounts: Accounts,
                        baseFee: int, verifier: Tx -> bool)
    requires i < |records| && AdmitRecords(c, p, records[..i], accounts, baseFee, verifier) == Ok(pool)
    ensures var r := AdmitRecord(c, p, pool, records[i], accounts, baseFee, verifier);
            && AdmitRecords(c, p, records[..i + 1], accounts, baseFee, verifier) == r
            && (r.Err? ==> AdmitRecords(c, p, records, accounts, baseFee, verifier) == Err(r.error))
    ensures RecordedHashes(records[..i + 1]) == RecordedHashes(records[..i]) + [records[i].hash]
  {
    assert records[..i + 1][..i] == records[..i];
    if AdmitRecord(c, p, pool, records[i], accounts, baseFee, verifier).Err? {
      FirstRefusalStays(c, p, records, i + 1, accounts, baseFee, verifier);
    }
  }

  ghost predicate IsContents(txs: map<Key, Tx>, picks: seq<Key>, selected: seq<Tx>) {
    |selected| == |picks| && forall i | 0 <= i < |picks| :: picks[i] in txs && selected[i] == txs[picks[i]]
  }

  function HashList(c: Config, txs: seq<Tx>): (r: seq<string>)
    ensures |r| == |txs| && forall i | 0 <= i < |r| :: r[i] == c.hashOf(txs[i])
  {
    if txs == [] then [] else HashList(c, txs[..|txs| - 1]) + [c.hashOf(txs[|txs| - 1])]
  }

  /** The loop has made the first picks and spent their gas; the rest is still to come. */
  ghost predicate Progress(c: Config, txs: map<Key, Tx>, start: Nonces, next: Nonces, baseFee: int, count: nat,
                           picks: seq<Key>, selected: seq<Tx>, gasUsed: int)
  {
    && DistinctHashes(c, txs)
    && |picks| <= count && gasUsed == |picks| * c.intrinsicGas
    && IsContents(txs, picks, selected)
    && Picks(c, txs, start, baseFee, count) == picks + Picks(c, txs, next, baseFee, count - |picks|)
  }

  lemma ProgressStep(c: Config, txs: map<Key, Tx>, start: Nonces, next: Nonces, baseFee: int, count: nat,
                     picks: seq<Key>, selected: seq<Tx>, gasUsed: int, best: Key)
    requires Progress(c, txs, start, next, baseFee, count, picks, selected, gasUsed) && |picks| < count
    requires Heads(txs, next, baseFee) != {} && best == Best(c, txs, baseFee, Heads(txs, next, baseFee))
    ensures Progress(c, txs, start, Advance(next, best), baseFee, count, picks + [best], selected + [txs[best]],
                     gasUsed + c.intrinsicGas)
  {
    NextPick(c, txs, next, baseFee, count - |picks|, best);
    OneMoreTimes(|picks|, c.intrinsicGas);
    var rest := Picks(c, txs, Advance(next, best), baseFee, count - |picks| - 1);
    assert picks + ([best] + rest) == picks + [best] + rest;
  }

  /** The same on the way to the candidate for a gas limit. */
  ghost predicate Filling(c: Config, txs: map<Key, Tx>, accounts: Accounts, next: Nonces, baseFee: int, limit: int,
                          picks: seq<Key>, selected: seq<Tx>, gasUsed: int)
    requires c.Valid() && 0 < limit
  {
    Progress(c, txs, StartNonces(accounts), next, baseFee, Affordable(c, limit), picks, selected, gasUsed)
  }

  lemma FillingStarts(c: Config, txs: map<Key, Tx>, accounts: Accounts, baseFee: int, limit: int)
    requires c.Valid() && 0 < limit && DistinctHashes(c, txs)
    ensures Filling(c, txs, accounts, StartNonces(accounts), baseFee, limit, [], [], 0)
  {
  }

  lemma FillingStep(c: Config, txs: map<Key, Tx>, accounts: Accounts, next: Nonces, baseFee: int, limit: int,
                    picks: seq<Key>, selected: seq<Tx>, gasUsed: int, best: Key)
    requires c.Valid() && 0 < limit && Keyed(txs) && gasUsed + c.intrinsicGas <= limit
    requires Filling(c, txs, accounts, next, baseFee, limit, picks, selected, gasUsed)
    requires Heads(txs, next, baseFee) != {} && best == Best(c, txs, baseFee, Heads(txs, next, baseFee))
    ensures |picks| < Affordable(c, limit)
    ensures Filling(c, txs, accounts, next[txs[best].sender := txs[best].nonce + 1], baseFee, limit,
                    picks + [best], selected + [txs[best]], gasUsed + c.intrinsicGas)
  {
    AffordableIff(c, limit, |picks|);
    ProgressStep(c, txs, StartNonces(accounts), next, baseFee, Affordable(c, limit), picks, selected, gasUsed, best);
    assert KeyOf(txs[best]) == best;
  }

  lemma FillingEnds(c: Config, txs: map<Key, Tx>, accounts: Accounts, next: Nonces, baseFee: int, limit: int,
                    picks: seq<Key>, selected: seq<Tx>, gasUsed: int)
    requires c.Valid() && 0 < limit && Filling(c, txs, accounts, next, baseFee, limit, picks, selected, gasUsed)
    requires gasUsed + c.intrinsicGas > limit || Heads(txs, next, baseFee) == {}
    ensures picks == Selection(c, txs, accounts, baseFee, limit)
    ensures IsContents(txs, picks, selected) && gasUsed == |picks| * c.intrinsicGas
  {
    AffordableIff(c, limit, |picks|);
    assert picks + [] == picks;
  }

  lemma NoHeads(listed: seq<Key>, heads: set<Key>)
    requires listed == [] && forall k :: k in listed <==> k in heads
    ensures heads == {}
  {
    assert forall k :: k !in heads;
  }
}
