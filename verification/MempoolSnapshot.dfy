/** Exporting the pool to a restart snapshot and restoring it through admission. */
module MempoolSnapshot {
  import opened Mempool
  import opened Ordering
  import opened Prelude
  import opened Protocol

  predicate KeyLess(a: Key, b: Key) {
    LexLess(a.0, b.0) || (a.0 == b.0 && a.1 < b.1)
  }

  lemma KeyLessIsStrictTotal()
    ensures StrictTotal(KeyLess)
  {
    forall a, b, c: Key
      ensures !KeyLess(a, a)
      ensures a != b ==> KeyLess(a, b) || KeyLess(b, a)
      ensures KeyLess(a, b) && KeyLess(b, c) ==> KeyLess(a, c)
    {
      LexTrichotomy(a.0, a.0);
      LexTrichotomy(a.0, b.0);
      if LexLess(a.0, b.0) && LexLess(b.0, c.0) { LexTransitive(a.0, b.0, c.0); }
    }
  }

  /** The pending transactions by sender and nonce. */
  function SortedKeys(txs: map<Key, Tx>): seq<Key> {
    KeyLessIsStrictTotal();
    Sort(KeyLess, txs.Keys)
  }

  lemma SortedKeysList(txs: map<Key, Tx>)
    ensures Ascending(KeyLess, SortedKeys(txs)) && Lists(SortedKeys(txs), txs.Keys)
    ensures forall i, j | 0 <= i < j < |txs| :: SortedKeys(txs)[i] != SortedKeys(txs)[j]
  {
    KeyLessIsStrictTotal();
    SortLists(KeyLess, txs.Keys);
  }

  datatype TxRecord = TxRecord(tx: Tx, hash: string)

  datatype SnapshotBody = SnapshotBody(schema: string, chainId: int, policy: Policy, transactions: seq<TxRecord>)

  datatype SnapshotDigest = SnapshotDigest(body: SnapshotBody) | ForeignDigest(text: string)

  datatype Snapshot = Snapshot(body: SnapshotBody, digest: SnapshotDigest)

  const SCHEMA := "junca-mempool-snapshot/v1"

  function Records(c: Config, txs: map<Key, Tx>, keys: seq<Key>): (r: seq<TxRecord>)
    requires forall i | 0 <= i < |keys| :: keys[i] in txs
    ensures |r| == |keys| && forall i | 0 <= i < |r| :: r[i] == TxRecord(txs[keys[i]], c.hashOf(txs[keys[i]]))
  {
    if keys == [] then []
    else
      var last := |keys| - 1;
      Records(c, txs, keys[..last]) + [TxRecord(txs[keys[last]], c.hashOf(txs[keys[last]]))]
  }

  function Export(c: Config, p: Policy, pool: Pool): Snapshot {
    SortedKeysList(pool.txs);
    var body := SnapshotBody(SCHEMA, c.chainId, p, Records(c, pool.txs, SortedKeys(pool.txs)));
    Snapshot(body, SnapshotDigest(body))
  }

  /** Why a snapshot is refused before its transactions are looked at. */
  function SnapshotError(c: Config, p: Policy, pool: Pool, snapshot: Snapshot): Option<PoolError> {
    if pool.txs != map[] then Some(PoolNotEmpty)
    else if snapshot.body.schema != SCHEMA || snapshot.body.chainId != c.chainId then Some(ForeignSnapshot)
    else if snapshot.digest != SnapshotDigest(snapshot.body) then Some(DigestMismatch)
    else if snapshot.body.policy != p then Some(PolicyMismatch)
    else None
  }

  /** Admits recorded transactions one by one. */
  function AdmitRecords(c: Config, p: Policy, records: seq<TxRecord>, accounts: Accounts, baseFee: int,
                        verifier: Tx -> bool)
    : Result<Pool, PoolError>
  {
    if records == [] then Ok(EMPTY)
    else
      match AdmitRecords(c, p, records[..|records| - 1], accounts, baseFee, verifier)
      case Err(e) => Err(e)
      case Ok(pool) => AdmitRecord(c, p, pool, records[|records| - 1], accounts, baseFee, verifier)
  }

  function AdmitRecord(c: Config, p: Policy, pool: Pool, record: TxRecord, accounts: Accounts, baseFee: int,
                       verifier: Tx -> bool)
    : Result<Pool, PoolError>
  {
    var tx := record.tx;
    if record.hash != c.hashOf(tx) then Err(HashMismatch)
    else
      match Admit(c, p, pool, tx, AccountOf(accounts, tx.sender), baseFee, verifier(tx))
      case Err(e) => Err(e)
      case Ok(r) => Ok(r.0)
  }

  function Restore(c: Config, p: Policy, pool: Pool, snapshot: Snapshot, accounts: Accounts, baseFee: int,
                   verifier: Tx -> bool)
    : Result<Pool, PoolError>
  {
    if SnapshotError(c, p, pool, snapshot).Some? then Err(SnapshotError(c, p, pool, snapshot).value)
    else AdmitRecords(c, p, snapshot.body.transactions, accounts, baseFee, verifier)
  }

  // ---------------------------------------------------------------- round trip

  ghost predicate StillAdmissible(c: Config, p: Policy, tx: Tx, accounts: Accounts, baseFee: int, verifier: Tx -> bool)
  {
    Boundary(c, p, tx, AccountOf(accounts, tx.sender), baseFee, verifier(tx)).None?
  }

  /** The part of the pool with the given keys. */
  ghost function Part(c: Config, txs: map<Key, Tx>, keys: seq<Key>): Pool {
    var part := map k | k in keys && k in txs :: txs[k];
    Pool(part, HashesOf(c, part))
  }

  lemma PartHasRoom(p: Policy, txs: map<Key, Tx>, part: map<Key, Tx>, key: Key)
    requires WithinCapacity(p, txs) && part.Keys <= txs.Keys && key in txs && key !in part
    ensures |part| < p.maxTransactions && |SenderKeys(part, key.0)| < p.maxPerSender
  {
    assert |part.Keys + {key}| == |part.Keys| + 1 && |part| == |part.Keys| && |txs| == |txs.Keys|;
    Fewer(part.Keys + {key}, txs.Keys);
    var (some, all) := (SenderKeys(part, key.0), SenderKeys(txs, key.0));
    assert key !in some && |some + {key}| == |some| + 1;
    Fewer(some + {key}, all);
  }

  lemma PartLacksHash(c: Config, txs: map<Key, Tx>, part: map<Key, Tx>, key: Key)
    requires DistinctHashes(c, txs) && key in txs && key !in part
    requires forall k | k in part :: k in txs && part[k] == txs[k]
    ensures c.hashOf(txs[key]) !in HashesOf(c, part) && DistinctHashes(c, part)
  {
  }

  /** One more transaction of a consistent pool is always within its capacity and new. */
  lemma AdmitNext(c: Config, p: Policy, pool: Pool, keys: seq<Key>, key: Key, accounts: Accounts, baseFee: int,
                  verifier: Tx -> bool)
    requires Invariant(c, p, pool) && key in pool.txs && key !in keys
    ensures var r := AdmitRecord(c, p, Part(c, pool.txs, keys), TxRecord(pool.txs[key], c.hashOf(pool.txs[key])),
                                 accounts, baseFee, verifier);
            if StillAdmissible(c, p, pool.txs[key], accounts, baseFee, verifier)
            then r == Ok(Part(c, pool.txs, keys + [key])) else r.Err?
  {
    var (part, tx) := (Part(c, pool.txs, keys), pool.txs[key]);
    assert KeyOf(tx) == key;
    PartHasRoom(p, pool.txs, part.txs, key);
    PartLacksHash(c, pool.txs, part.txs, key);
    HashesAfterAdd(c, part.txs, key, tx);
    assert Part(c, pool.txs, keys + [key]).txs == part.txs[key := tx];
  }

  ghost predicate AllAdmissible(c: Config, p: Policy, txs: map<Key, Tx>, keys: seq<Key>, accounts: Accounts,
                                baseFee: int, verifier: Tx -> bool)
    requires forall i | 0 <= i < |keys| :: keys[i] in txs
  {
    forall i | 0 <= i < |keys| :: StillAdmissible(c, p, txs[keys[i]], accounts, baseFee, verifier)
  }

  lemma AllAdmissibleSplits(c: Config, p: Policy, txs: map<Key, Tx>, rest: seq<Key>, last: Key, accounts: Accounts,
                            baseFee: int, verifier: Tx -> bool)
    requires (forall i | 0 <= i < |rest| :: rest[i] in txs) && last in txs
    ensures AllAdmissible(c, p, txs, rest + [last], accounts, baseFee, verifier)
       <==> && AllAdmissible(c, p, txs, rest, accounts, baseFee, verifier)
            && StillAdmissible(c, p, txs[last], accounts, baseFee, verifier)
  {
    var keys := rest + [last];
    assert keys[|rest|] == last && forall i | 0 <= i < |rest| :: keys[i] == rest[i];
  }

  lemma RecordsEnd(c: Config, txs: map<Key, Tx>, keys: seq<Key>)
    requires keys != [] && forall i | 0 <= i < |keys| :: keys[i] in txs
    ensures var n := |keys| - 1;
            && |Records(c, txs, keys)| == n + 1
            && Records(c, txs, keys)[..n] == Records(c, txs, keys[..n])
            && Records(c, txs, keys)[n] == TxRecord(txs[keys[n]], c.hashOf(txs[keys[n]]))
  {
  }

  lemma {:induction false} RestorePrefix(c: Config, p: Policy, pool: Pool, keys: seq<Key>, accounts: Accounts,
                                         baseFee: int, verifier: Tx -> bool)
    requires Invariant(c, p, pool)
    requires forall i | 0 <= i < |keys| :: keys[i] in pool.txs
    requires forall i, j | 0 <= i < j < |keys| :: keys[i] != keys[j]
    ensures var r := AdmitRecords(c, p, Records(c, pool.txs, keys), accounts, baseFee, verifier);
            && (r.Ok? <==> AllAdmissible(c, p, pool.txs, keys, accounts, baseFee, verifier))
            && (r.Ok? ==> r.value == Part(c, pool.txs, keys))
  {
    if keys == [] {
      assert Part(c, pool.txs, keys).txs == map[];
    } else {
      var (rest, last) := (keys[..|keys| - 1], keys[|keys| - 1]);
      RestorePrefix(c, p, pool, rest, accounts, baseFee, verifier);
      assert keys == rest + [last] && last !in rest;
      RecordsEnd(c, pool.txs, keys);
      AllAdmissibleSplits(c, p, pool.txs, rest, last, accounts, baseFee, verifier);
      AdmitNext(c, p, pool, rest, last, accounts, baseFee, verifier);
    }
  }

  lemma ExportIsAccepted(c: Config, p: Policy, pool: Pool, accounts: Accounts, baseFee: int, verifier: Tx -> bool)
    ensures var keys := SortedKeys(pool.txs);
            && (forall i | 0 <= i < |keys| :: keys[i] in pool.txs)
            && Restore(c, p, EMPTY, Export(c, p, pool), accounts, baseFee, verifier) ==
               AdmitRecords(c, p, Records(c, pool.txs, keys), accounts, baseFee, verifier)
  {
    SortedKeysList(pool.txs);
  }

  lemma WholePart(c: Config, pool: Pool, keys: seq<Key>)
    requires pool.hashes == HashesOf(c, pool.txs) && forall k :: k in pool.txs <==> k in keys
    ensures Part(c, pool.txs, keys) == pool
  {
    assert Part(c, pool.txs, keys).txs == pool.txs;
  }

  /** Restoring an exported pool succeeds exactly when every transaction still passes
      admission, and then gives back the same pool. */
  lemma RestoreInvertsExport(c: Config, p: Policy, pool: Pool, accounts: Accounts, baseFee: int, verifier: Tx -> bool)
    requires Invariant(c, p, pool)
    ensures var r := Restore(c, p, EMPTY, Export(c, p, pool), accounts, baseFee, verifier);
            && (r.Ok? <==> forall k | k in pool.txs :: StillAdmissible(c, p, pool.txs[k], accounts, baseFee, verifier))
            && (r.Ok? ==> r.value == pool)
  {
    var keys := SortedKeys(pool.txs);
    SortedKeysList(pool.txs);
    ExportIsAccepted(c, p, pool, accounts, baseFee, verifier);
    RestorePrefix(c, p, pool, keys, accounts, baseFee, verifier);
    WholePart(c, pool, keys);
  }

  /** Whatever a snapshot holds, a pool restored from it is consistent. */
  lemma {:induction false} RestoredPoolIsConsistent(c: Config, p: Policy, records: seq<TxRecord>, accounts: Accounts,
                                                    baseFee: int, verifier: Tx -> bool)
    requires p.Valid()
    ensures var r := AdmitRecords(c, p, records, accounts, baseFee, verifier);
            r.Ok? ==> Invariant(c, p, r.value)
  {
    if records == [] {
      assert forall sender :: SenderKeys(EMPTY.txs, sender) == {};
    } else {
      var (before, tx) := (AdmitRecords(c, p, records[..|records| - 1], accounts, baseFee, verifier),
                           records[|records| - 1].tx);
      RestoredPoolIsConsistent(c, p, records[..|records| - 1], accounts, baseFee, verifier);
      if before.Ok? {
        AdmitKeepsInvariant(c, p, before.value, tx, AccountOf(accounts, tx.sender), baseFee, verifier(tx));
      }
    }
  }
}
