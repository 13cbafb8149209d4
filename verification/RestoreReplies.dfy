/** Exactly which mempool snapshots are restored, and what a restored pool holds. */
module RestoreReplies {
  import opened Mempool
  import opened MempoolReplies
  import opened MempoolSnapshot
  import opened Prelude
  import opened Protocol

  /** The snapshot is of this program, chain and policy, and its digest is that of its content. */
  ghost predicate Genuine(c: Config, p: Policy, snapshot: Snapshot) {
    && snapshot.body.schema == "junca-mempool-snapshot/v1" && snapshot.body.chainId == c.chainId
    && snapshot.digest == SnapshotDigest(snapshot.body) && snapshot.body.policy == p
  }

  /** The record is its transaction's, and the pool of the records before admits the transaction. */
  ghost predicate Taken(c: Config, p: Policy, before: Result<Pool, PoolError>, record: TxRecord, accounts: Accounts,
                        baseFee: int, verifier: Tx -> bool)
  {
    var tx := record.tx;
    && before.Ok? && record.hash == c.hashOf(tx)
    && Fit(c, p, tx, AccountOf(accounts, tx.sender), baseFee, verifier(tx)) && !Known(c, before.value, tx)
    && (Room(p, before.value, tx) || Outbidding(p, before.value, tx))
  }

  ghost predicate Readmitted(c: Config, p: Policy, records: seq<TxRecord>, accounts: Accounts, baseFee: int,
                             verifier: Tx -> bool, n: nat)
    requires n < |records|
  {
    Taken(c, p, AdmitRecords(c, p, records[..n], accounts, baseFee, verifier), records[n], accounts, baseFee, verifier)
  }

  ghost predicate AllReadmitted(c: Config, p: Policy, records: seq<TxRecord>, accounts: Accounts, baseFee: int,
                                verifier: Tx -> bool)
  {
    forall n | 0 <= n < |records| :: Readmitted(c, p, records, accounts, baseFee, verifier, n)
  }

  lemma SameBefore(c: Config, p: Policy, rest: seq<TxRecord>, records: seq<TxRecord>, accounts: Accounts, baseFee: int,
                   verifier: Tx -> bool, n: nat)
    requires n < |rest| && rest <= records
    ensures Readmitted(c, p, rest, accounts, baseFee, verifier, n) <==>
              Readmitted(c, p, records, accounts, baseFee, verifier, n)
  {
    assert rest[..n] == records[..n];
  }

  lemma ReadmittedSplits(c: Config, p: Policy, records: seq<TxRecord>, accounts: Accounts, baseFee: int,
                         verifier: Tx -> bool)
    requires records != []
    ensures AllReadmitted(c, p, records, accounts, baseFee, verifier) <==>
              && AllReadmitted(c, p, records[..|records| - 1], accounts, baseFee, verifier)
              && Readmitted(c, p, records, accounts, baseFee, verifier, |records| - 1)
  {
    var rest := records[..|records| - 1];
    forall n | 0 <= n < |rest|
      ensures Readmitted(c, p, rest, accounts, baseFee, verifier, n) <==>
              Readmitted(c, p, records, accounts, baseFee, verifier, n)
    {
      SameBefore(c, p, rest, records, accounts, baseFee, verifier, n);
    }
  }

  /** The pool of records that have all been admitted: consistent, and with each transaction at its place. */
  lemma {:induction false} AdmittedRecordsIff(c: Config, p: Policy, records: seq<TxRecord>, accounts: Accounts,
                                              baseFee: int, verifier: Tx -> bool)
    requires p.Valid()
    ensures var r := AdmitRecords(c, p, records, accounts, baseFee, verifier);
            && (r.Ok? <==> AllReadmitted(c, p, records, accounts, baseFee, verifier))
            && (r.Ok? ==>
                  && Invariant(c, p, r.value)
                  && (forall k | k in r.value.txs :: Recorded(records, r.value.txs[k])))
  {
    if records == [] {
      assert forall sender :: SenderKeys(EMPTY.txs, sender) == {};
    } else {
      var (rest, last) := (records[..|records| - 1], records[|records| - 1]);
      var before := AdmitRecords(c, p, rest, accounts, baseFee, verifier);
      AdmittedRecordsIff(c, p, rest, accounts, baseFee, verifier);
      ReadmittedSplits(c, p, records, accounts, baseFee, verifier);
      if before.Ok? { NextRecord(c, p, rest, last, before.value, accounts, baseFee, verifier); }
      assert rest + [last] == records;
    }
  }

  ghost predicate Recorded(records: seq<TxRecord>, tx: Tx) {
    exists n :: 0 <= n < |records| && records[n].tx == tx
  }

  lemma NextRecord(c: Config, p: Policy, rest: seq<TxRecord>, last: TxRecord, before: Pool, accounts: Accounts,
                   baseFee: int, verifier: Tx -> bool)
    requires Invariant(c, p, before) && AdmitRecords(c, p, rest, accounts, baseFee, verifier) == Ok(before)
    requires forall k | k in before.txs :: Recorded(rest, before.txs[k])
    ensures var (records, r) := (rest + [last], AdmitRecord(c, p, before, last, accounts, baseFee, verifier));
            && (r.Ok? <==> Readmitted(c, p, records, accounts, baseFee, verifier, |rest|))
            && (r.Ok? ==>
                  && Invariant(c, p, r.value)
                  && (forall k | k in r.value.txs :: Recorded(records, r.value.txs[k])))
  {
    var (records, tx) := (rest + [last], last.tx);
    var account := AccountOf(accounts, tx.sender);
    assert records[..|rest|] == rest && records[|rest|] == last;
    AdmittedIff(c, p, before, tx, account, baseFee, verifier(tx));
    AdmitKeepsInvariant(c, p, before, tx, account, baseFee, verifier(tx));
    var r := AdmitRecord(c, p, before, last, accounts, baseFee, verifier);
    if r.Ok? {
      forall k | k in r.value.txs
        ensures Recorded(records, r.value.txs[k])
      {
        RecordedStill(rest, last, before.txs, tx, r.value.txs, k);
      }
    }
  }

  lemma RecordedStill(rest: seq<TxRecord>, last: TxRecord, before: map<Key, Tx>, tx: Tx, after: map<Key, Tx>, k: Key)
    requires (forall x | x in before :: Recorded(rest, before[x])) && tx == last.tx
    requires after == before[(tx.sender, tx.nonce) := tx] && k in after
    ensures Recorded(rest + [last], after[k])
  {
    var records := rest + [last];
    if k == (tx.sender, tx.nonce) {
      assert records[|rest|].tx == after[k];
    } else {
      var n :| 0 <= n < |rest| && rest[n].tx == before[k];
      assert records[n].tx == after[k];
    }
  }

  /** A snapshot is restored exactly when the pool is empty, the snapshot is genuine, and admission takes
      its transactions one after another, each under its own hash. The restored pool is consistent and
      holds nothing but what was recorded. */
  lemma RestoredIff(c: Config, p: Policy, pool: Pool, snapshot: Snapshot, accounts: Accounts, baseFee: int,
                    verifier: Tx -> bool)
    requires p.Valid()
    ensures var r := Restore(c, p, pool, snapshot, accounts, baseFee, verifier);
            && (r.Ok? <==>
                  && |pool.txs| == 0 && Genuine(c, p, snapshot)
                  && AllReadmitted(c, p, snapshot.body.transactions, accounts, baseFee, verifier))
            && (r.Ok? ==>
                  && Invariant(c, p, r.value)
                  && forall k | k in r.value.txs :: Recorded(snapshot.body.transactions, r.value.txs[k]))
  {
    AdmittedRecordsIff(c, p, snapshot.body.transactions, accounts, baseFee, verifier);
  }

  /** Why a snapshot is refused before its transactions are looked at. */
  lemma RefusedIff(c: Config, p: Policy, pool: Pool, snapshot: Snapshot)
    ensures var refusal := SnapshotError(c, p, pool, snapshot);
            var ours := pool.txs == map[] && snapshot.body.schema == SCHEMA && snapshot.body.chainId == c.chainId;
            && (refusal == Some(PoolNotEmpty) <==> |pool.txs| > 0)
            && (refusal == Some(ForeignSnapshot) <==> |pool.txs| == 0 && !ours)
            && (refusal == Some(DigestMismatch) <==> ours && snapshot.digest != SnapshotDigest(snapshot.body))
            && (refusal == Some(PolicyMismatch) <==>
                  ours && snapshot.digest == SnapshotDigest(snapshot.body) && snapshot.body.policy != p)
            && (refusal.None? <==> |pool.txs| == 0 && Genuine(c, p, snapshot))
  {
  }
}
