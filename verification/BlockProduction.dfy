/** From the pool to an executed block: which candidates the kernel accepts. */
module BlockProduction {
  import opened Candidate
  import opened Mempool
  import opened Prelude
  import opened Protocol
  import K = Kernel
  import opened TransactionPools

  /** The transactions behind the picks. */
  function Chosen(txs: Txs, picks: seq<Key>): (r: seq<Tx>)
    requires forall i | 0 <= i < |picks| :: picks[i] in txs
    ensures IsContents(txs, picks, r)
  {
    if picks == [] then [] else Chosen(txs, picks[..|picks| - 1]) + [txs[picks[|picks| - 1]]]
  }

  lemma ChosenIsContents(txs: Txs, picks: seq<Key>, selected: seq<Tx>)
    requires IsContents(txs, picks, selected)
    ensures selected == Chosen(txs, picks)
  {
  }

  /** The candidate's transactions: the picks at the head's base fee for a whole block. */
  ghost function CandidateOf(c: Config, pool: Pool, accounts: Accounts, headBaseFee: int): seq<Tx>
    requires c.Valid() && DistinctHashes(c, pool.txs)
  {
    var picks := Selection(c, pool.txs, accounts, headBaseFee, c.blockGasLimit);
    PicksInNonceOrder(c, pool.txs, StartNonces(accounts), headBaseFee, Affordable(c, c.blockGasLimit));
    Chosen(pool.txs, picks)
  }

  function SelfPayments(txs: seq<Tx>, a: string): nat {
    if txs == [] then 0
    else
      var last := txs[|txs| - 1];
      SelfPayments(txs[..|txs| - 1], a) + (if last.sender == a && K.PaysItself(last) then 1 else 0)
  }

  lemma {:induction false} CountFromBack(keys: seq<Key>, last: Key, sender: string)
    ensures CountOf(keys + [last], sender) == CountOf(keys, sender) + (if last.0 == sender then 1 else 0)
  {
    if keys == [] {
      assert keys + [last] == [last] && [last][1..] == [];
    } else {
      assert (keys + [last])[1..] == keys[1..] + [last];
      CountFromBack(keys[1..], last, sender);
    }
  }

  /** A sender's picks so far are its nonce bumps and its payments to itself. */
  lemma {:induction false} CountSplits(txs: Txs, picks: seq<Key>, selected: seq<Tx>, sender: string)
    requires Keyed(txs) && IsContents(txs, picks, selected)
    ensures CountOf(picks, sender) == K.BumpsOf(selected, sender) + SelfPayments(selected, sender)
  {
    if picks != [] {
      var n := |picks| - 1;
      CountSplits(txs, picks[..n], selected[..n], sender);
      CountFromBack(picks[..n], picks[n], sender);
      assert picks[..n] + [picks[n]] == picks;
    }
  }

  lemma {:induction false} SelfPaymentsIff(txs: seq<Tx>, a: string)
    ensures SelfPayments(txs, a) == 0 <==> forall j | 0 <= j < |txs| :: txs[j].sender == a ==> !K.PaysItself(txs[j])
  {
    if txs != [] { SelfPaymentsIff(txs[..|txs| - 1], a); }
  }

  /** What it takes for one candidate transaction to run after the earlier ones. */
  ghost predicate Runs(c: Config, accounts: Accounts, earlier: seq<Tx>, tx: Tx, baseFee: int, verifier: Tx -> bool) {
    && K.TxError(c, tx, baseFee).None?
    && verifier(tx)
    && (forall j | 0 <= j < |earlier| :: earlier[j].sender == tx.sender ==> !K.PaysItself(earlier[j]))
    && AccountOf(accounts, tx.sender).balance + K.NetOf(c, earlier, baseFee, tx.sender) >= K.Debit(c, tx, baseFee)
  }

  lemma PicksDiffer(txs: Txs, next: Nonces, baseFee: int, picks: seq<Key>, i: nat, j: nat)
    requires InNonceOrder(txs, next, baseFee, picks) && i < j < |picks|
    ensures picks[i] != picks[j]
  {
    if picks[i] == picks[j] {
      CountFromBack(picks[..i], picks[i], picks[i].0);
      assert picks[..i] + [picks[i]] == picks[..i + 1];
      CountGrows(picks[..i + 1], picks[..j], picks[i].0);
    }
  }

  lemma {:induction false} CountGrows(few: seq<Key>, many: seq<Key>, sender: string)
    requires few <= many
    ensures CountOf(few, sender) <= CountOf(many, sender)
    decreases many
  {
    if few != many {
      var n := |many| - 1;
      CountGrows(few, many[..n], sender);
      CountFromBack(many[..n], many[n], sender);
      assert many[..n] + [many[n]] == many;
    }
  }

  lemma PickRunsIff(c: Config, txs: Txs, accounts: Accounts, headBaseFee: int, picks: seq<Key>, selected: seq<Tx>,
                    i: nat, baseFee: int, verifier: Tx -> bool)
    requires c.Valid() && Keyed(txs) && DistinctHashes(c, txs) && IsContents(txs, picks, selected)
    requires InNonceOrder(txs, StartNonces(accounts), headBaseFee, picks)
    requires i < |picks| && |picks| * c.intrinsicGas <= c.blockGasLimit
    ensures K.ExecutableAt(c, accounts, selected[..i], selected[i], baseFee, verifier)
       <==> Runs(c, accounts, selected[..i], selected[i], baseFee, verifier)
  {
    var (earlier, tx) := (selected[..i], selected[i]);
    forall j | 0 <= j < i
      ensures c.hashOf(earlier[j]) != c.hashOf(tx)
    {
      PicksDiffer(txs, StartNonces(accounts), headBaseFee, picks, j, i);
    }
    OneMoreTimes(i, c.intrinsicGas);
    TimesOrdered(i + 1, |picks|, c.intrinsicGas);
    assert IsContents(txs, picks[..i], earlier);
    CountSplits(txs, picks[..i], earlier, tx.sender);
    SelfPaymentsIff(earlier, tx.sender);
    assert picks[i].0 == tx.sender && picks[i].1 == tx.nonce;
    assert NextOf(StartNonces(accounts), tx.sender) == AccountOf(accounts, tx.sender).nonce;
  }

  /** A candidate can be executed at a base fee exactly when each of its transactions is sound
      at that fee and verified, is covered by what its sender has left, and does not follow a
      payment of its sender to itself. Nonces, duplicates and the gas limit never fail. */
  lemma CandidateExecutesIff(c: Config, pool: Pool, accounts: Accounts, headBaseFee: int, baseFee: int,
                             verifier: Tx -> bool)
    requires c.Valid() && Keyed(pool.txs) && DistinctHashes(c, pool.txs)
    ensures var selected := CandidateOf(c, pool, accounts, headBaseFee);
            K.Execute(c, accounts, selected, baseFee, verifier).Ok?
            <==> forall i | 0 <= i < |selected| :: Runs(c, accounts, selected[..i], selected[i], baseFee, verifier)
  {
    var picks := Selection(c, pool.txs, accounts, headBaseFee, c.blockGasLimit);
    var selected := CandidateOf(c, pool, accounts, headBaseFee);
    PicksInNonceOrder(c, pool.txs, StartNonces(accounts), headBaseFee, Affordable(c, c.blockGasLimit));
    SelectionFillsTheBlock(c, pool.txs, accounts, headBaseFee, c.blockGasLimit, c.blockGasLimit);
    K.ExecutesIff(c, accounts, selected, baseFee, verifier);
    forall i | 0 <= i < |selected|
      ensures K.ExecutableAt(c, accounts, selected[..i], selected[i], baseFee, verifier)
         <==> Runs(c, accounts, selected[..i], selected[i], baseFee, verifier)
    {
      PickRunsIff(c, pool.txs, accounts, headBaseFee, picks, selected, i, baseFee, verifier);
    }
  }

  // -------------------------------------------------- the fee of the next block

  /** The pool picks at the head's base fee and the kernel charges the next block's. After a
      block at or under the target no pick is priced out. */
  lemma NeverPricedOut(c: Config, pool: Pool, accounts: Accounts, headBaseFee: int, headGasUsed: int, i: nat)
    requires c.Valid() && DistinctHashes(c, pool.txs) && 0 < headBaseFee && 0 <= headGasUsed <= c.targetGas
    requires i < |CandidateOf(c, pool, accounts, headBaseFee)|
    ensures K.NextBaseFee(c, headBaseFee, headGasUsed).Ok?
    ensures CandidateOf(c, pool, accounts, headBaseFee)[i].maxFee >= K.NextBaseFee(c, headBaseFee, headGasUsed).value
  {
    K.BaseFeeFollowsUsage(c, headBaseFee, headGasUsed);
    var picks := Selection(c, pool.txs, accounts, headBaseFee, c.blockGasLimit);
    PicksInNonceOrder(c, pool.txs, StartNonces(accounts), headBaseFee, Affordable(c, c.blockGasLimit));
    assert Payable(pool.txs[picks[i]], headBaseFee);
  }

  lemma LoneTransactionIsPicked(c: Config, tx: Tx, accounts: Accounts, headBaseFee: int)
    requires c.Valid() && c.intrinsicGas <= c.blockGasLimit
    requires tx.maxFee >= headBaseFee && tx.nonce == AccountOf(accounts, tx.sender).nonce
    ensures var pool := Pool(map[KeyOf(tx) := tx], {c.hashOf(tx)});
            CandidateOf(c, pool, accounts, headBaseFee) == [tx]
  {
    var (txs, next, key) := (map[KeyOf(tx) := tx], StartNonces(accounts), KeyOf(tx));
    assert Heads(txs, next, headBaseFee) == {key};
    AffordableIff(c, c.blockGasLimit, 0);
    var count := Affordable(c, c.blockGasLimit);
    var best := Best(c, txs, headBaseFee, Heads(txs, next, headBaseFee));
    NextPick(c, txs, next, headBaseFee, count, best);
    assert Heads(txs, Advance(next, best), headBaseFee) == {};
    assert Selection(c, txs, accounts, headBaseFee, c.blockGasLimit) == [key];
  }

  lemma UnderpricedIsRefused(c: Config, tx: Tx, accounts: Accounts, baseFee: int, verifier: Tx -> bool)
    requires K.TxError(c, tx, baseFee) == Some(K.FeeBelowBase)
    ensures K.Execute(c, accounts, [tx], baseFee, verifier) == Err(K.FeeBelowBase)
  {
    assert [tx][..0] == [];
    assert K.Execute(c, accounts, [], baseFee, verifier) == Ok(K.Begin(accounts));
  }

  /** After a block over the target, a lone transaction that offers no more than the head's
      base fee is picked, and the block it is picked for is refused. */
  lemma LonePricedOut(c: Config, tx: Tx, accounts: Accounts, headBaseFee: int, headGasUsed: int, verifier: Tx -> bool)
    requires c.Valid() && c.intrinsicGas <= c.blockGasLimit
    requires 0 < headBaseFee && c.targetGas < headGasUsed <= c.blockGasLimit
    requires tx.maxFee == headBaseFee && tx.nonce == AccountOf(accounts, tx.sender).nonce
    requires K.TxError(c, tx, headBaseFee).None? && forall a | a in accounts :: K.IsAddress(a)
    ensures var pool := Pool(map[KeyOf(tx) := tx], {c.hashOf(tx)});
            && CandidateOf(c, pool, accounts, headBaseFee) == [tx]
            && K.BlockOf(c, headBaseFee, headGasUsed, accounts, [tx], verifier) == Err(K.FeeBelowBase)
  {
    LoneTransactionIsPicked(c, tx, accounts, headBaseFee);
    K.BaseFeeFollowsUsage(c, headBaseFee, headGasUsed);
    UnderpricedIsRefused(c, tx, accounts, K.NextBaseFee(c, headBaseFee, headGasUsed).value, verifier);
  }

  /** A pick that offers less than this base fee. */
  ghost predicate PicksBelow(c: Config, pool: Pool, accounts: Accounts, headBaseFee: int, baseFee: int)
    requires c.Valid()
  {
    && Keyed(pool.txs) && DistinctHashes(c, pool.txs)
    && var selected := CandidateOf(c, pool, accounts, headBaseFee);
       exists i :: 0 <= i < |selected| && selected[i].maxFee < baseFee
  }

  lemma UnderpricedStopsExecution(c: Config, accounts: Accounts, txs: seq<Tx>, i: nat, baseFee: int,
                                  verifier: Tx -> bool)
    requires i < |txs| && txs[i].maxFee < baseFee
    ensures K.Execute(c, accounts, txs, baseFee, verifier).Err?
  {
    K.ExecutesIff(c, accounts, txs, baseFee, verifier);
    if K.Executable(c, accounts, txs, baseFee, verifier) {
      assert K.ExecutableAt(c, accounts, txs[..i], txs[i], baseFee, verifier);
    }
  }

  lemma UnderpricedRefusesBlock(c: Config, accounts: Accounts, txs: seq<Tx>, i: nat, headBaseFee: int, headGasUsed: int,
                                verifier: Tx -> bool)
    requires c.Valid() && i < |txs|
    requires var fee := K.NextBaseFee(c, headBaseFee, headGasUsed); fee.Ok? && txs[i].maxFee < fee.value
    ensures K.BlockOf(c, headBaseFee, headGasUsed, accounts, txs, verifier).Err?
  {
    UnderpricedStopsExecution(c, accounts, txs, i, K.NextBaseFee(c, headBaseFee, headGasUsed).value, verifier);
  }

  /** One such pick refuses the whole block, whatever else is in the pool. */
  lemma PricedOut(c: Config, pool: Pool, accounts: Accounts, headBaseFee: int, headGasUsed: int, verifier: Tx -> bool)
    requires c.Valid() && 0 < headBaseFee && 0 <= headGasUsed <= c.blockGasLimit
    requires K.NextBaseFee(c, headBaseFee, headGasUsed).Ok?
    requires PicksBelow(c, pool, accounts, headBaseFee, K.NextBaseFee(c, headBaseFee, headGasUsed).value)
    ensures K.BlockOf(c, headBaseFee, headGasUsed, accounts, CandidateOf(c, pool, accounts, headBaseFee), verifier).Err?
  {
    var (txs, baseFee) := (CandidateOf(c, pool, accounts, headBaseFee),
                           K.NextBaseFee(c, headBaseFee, headGasUsed).value);
    var i :| 0 <= i < |txs| && txs[i].maxFee < baseFee;
    UnderpricedRefusesBlock(c, accounts, txs, i, headBaseFee, headGasUsed, verifier);
  }

  /** The pool after these transactions, whose signatures verify, have been admitted one after
      another, each against the account of its sender. */
  function AdmitAll(c: Config, p: Policy, accounts: Accounts, baseFee: int, txs: seq<Tx>): Result<Pool, PoolError> {
    if txs == [] then Ok(EMPTY)
    else
      var last := txs[|txs| - 1];
      match AdmitAll(c, p, accounts, baseFee, txs[..|txs| - 1])
      case Err(e) => Err(e)
      case Ok(pool) =>
        match Admit(c, p, pool, last, AccountOf(accounts, last.sender), baseFee, true)
        case Err(e) => Err(e)
        case Ok(r) => Ok(r.0)
  }

  lemma {:induction false} AdmittedIsConsistent(c: Config, p: Policy, accounts: Accounts, baseFee: int, txs: seq<Tx>)
    requires p.Valid()
    ensures var r := AdmitAll(c, p, accounts, baseFee, txs);
            r.Ok? ==> Invariant(c, p, r.value)
  {
    if txs == [] {
      assert forall sender :: SenderKeys(EMPTY.txs, sender) == {};
    } else {
      var (before, last) := (AdmitAll(c, p, accounts, baseFee, txs[..|txs| - 1]), txs[|txs| - 1]);
      AdmittedIsConsistent(c, p, accounts, baseFee, txs[..|txs| - 1]);
      if before.Ok? {
        AdmitKeepsInvariant(c, p, before.value, last, AccountOf(accounts, last.sender), baseFee, true);
      }
    }
  }

  /** Transactions that the kernel takes for sound at the head's base fee, and accounts it takes. */
  ghost predicate Sound(c: Config, accounts: Accounts, baseFee: int, txs: seq<Tx>) {
    && (forall a | a in accounts :: K.IsAddress(a))
    && (forall i | 0 <= i < |txs| :: K.TxError(c, txs[i], baseFee).None?)
  }

  /** Sound transactions are admitted, and among the picks is one below this base fee. */
  ghost predicate AdmitsBelow(c: Config, p: Policy, accounts: Accounts, headBaseFee: int, baseFee: int, txs: seq<Tx>)
    requires c.Valid()
  {
    && Sound(c, accounts, headBaseFee, txs)
    && AdmitAll(c, p, accounts, headBaseFee, txs).Ok?
    && PicksBelow(c, AdmitAll(c, p, accounts, headBaseFee, txs).value, accounts, headBaseFee, baseFee)
  }

  /** The address of one digit 40 times. */
  function Address(digit: char): (address: string)
    requires IsLowerHexDigit(digit)
    ensures K.IsAddress(address) && address[2] == digit
  {
    "0x" + DigitText(digit, 40)
  }

  /** A transaction that moves nothing, at this fee. */
  function Plain(c: Config, sender: string, recipient: string, fee: int, nonce: int): Tx {
    Tx(c.chainId, sender, recipient, nonce, 0, c.intrinsicGas, fee, 0, [], [0])
  }

  /** The sender has not sent anything yet and can pay for one such transaction. */
  ghost predicate PaysForOne(c: Config, accounts: Accounts, sender: string, fee: int) {
    && (forall a | a in accounts :: K.IsAddress(a))
    && 0 <= c.intrinsicGas * fee && AccountOf(accounts, sender) == Account(c.intrinsicGas * fee, 0)
  }

  lemma SomePaysForOne(c: Config, sender: string, fee: int) returns (accounts: Accounts)
    requires c.Valid() && 0 < fee && K.IsAddress(sender)
    ensures PaysForOne(c, accounts, sender, fee)
  {
    TimesOrdered(0, fee, c.intrinsicGas);
    accounts := map[sender := Account(c.intrinsicGas * fee, 0)];
  }

  lemma PlainIsSound(c: Config, sender: string, recipient: string, fee: int, nonce: nat)
    requires c.Valid() && c.intrinsicGas <= c.blockGasLimit && 0 < fee && K.IsAddress(sender) && K.IsAddress(recipient)
    ensures K.TxError(c, Plain(c, sender, recipient, fee, nonce), fee).None?
  {
  }

  /** Admission finds nothing wrong with the transaction alone. */
  ghost predicate Covered(c: Config, p: Policy, accounts: Accounts, baseFee: int, tx: Tx) {
    Boundary(c, p, tx, AccountOf(accounts, tx.sender), baseFee, true).None?
  }

  lemma PlainIsCovered(c: Config, p: Policy, accounts: Accounts, sender: string, recipient: string, fee: int,
                       nonce: nat)
    requires c.Valid() && c.intrinsicGas <= c.blockGasLimit && 0 < fee && nonce <= p.maxNonceGap
    requires PaysForOne(c, accounts, sender, fee)
    ensures Covered(c, p, accounts, fee, Plain(c, sender, recipient, fee, nonce))
  {
  }

  lemma FirstAdmitted(c: Config, p: Policy, accounts: Accounts, baseFee: int, tx: Tx)
    requires p.Valid() && Covered(c, p, accounts, baseFee, tx)
    ensures AdmitAll(c, p, accounts, baseFee, [tx]) == Ok(Pool(map[KeyOf(tx) := tx], {c.hashOf(tx)}))
  {
    assert [tx][..0] == [] && SenderKeys(EMPTY.txs, tx.sender) == {};
    assert EMPTY.hashes + {c.hashOf(tx)} == {c.hashOf(tx)};
  }

  lemma LoneIsBelow(c: Config, p: Policy, accounts: Accounts, tx: Tx, headBaseFee: int, baseFee: int)
    requires c.Valid() && p.Valid() && c.intrinsicGas <= c.blockGasLimit
    requires Sound(c, accounts, headBaseFee, [tx]) && Covered(c, p, accounts, headBaseFee, tx)
    requires headBaseFee <= tx.maxFee < baseFee && tx.nonce == AccountOf(accounts, tx.sender).nonce
    ensures AdmitsBelow(c, p, accounts, headBaseFee, baseFee, [tx])
  {
    FirstAdmitted(c, p, accounts, headBaseFee, tx);
    LoneTransactionIsPicked(c, tx, accounts, headBaseFee);
    assert CandidateOf(c, AdmitAll(c, p, accounts, headBaseFee, [tx]).value, accounts, headBaseFee)[0].maxFee < baseFee;
  }

  lemma SomeAdmitsBelow(c: Config, p: Policy, headBaseFee: int, baseFee: int) returns (accounts: Accounts, txs: seq<Tx>)
    requires c.Valid() && p.Valid() && c.intrinsicGas <= c.blockGasLimit && 0 < headBaseFee < baseFee
    ensures AdmitsBelow(c, p, accounts, headBaseFee, baseFee, txs)
  {
    var (sender, recipient) := (Address('a'), Address('b'));
    var tx := Plain(c, sender, recipient, headBaseFee, 0);
    accounts := SomePaysForOne(c, sender, headBaseFee);
    txs := [tx];
    PlainIsSound(c, sender, recipient, headBaseFee, 0);
    PlainIsCovered(c, p, accounts, sender, recipient, headBaseFee, 0);
    LoneIsBelow(c, p, accounts, tx, headBaseFee, baseFee);
  }

  /** Sound transactions can be admitted to a pool that picks below the next base fee exactly
      after a block over the target. */
  lemma PricedOutIff(c: Config, p: Policy, headBaseFee: int, headGasUsed: int)
    requires c.Valid() && p.Valid() && c.intrinsicGas <= c.blockGasLimit
    requires 0 < headBaseFee && 0 <= headGasUsed <= c.blockGasLimit
    ensures K.NextBaseFee(c, headBaseFee, headGasUsed).Ok?
    ensures var baseFee := K.NextBaseFee(c, headBaseFee, headGasUsed).value;
            headGasUsed > c.targetGas <==> exists accounts, txs ::
              AdmitsBelow(c, p, accounts, headBaseFee, baseFee, txs)
  {
    K.BaseFeeFollowsUsage(c, headBaseFee, headGasUsed);
    var baseFee := K.NextBaseFee(c, headBaseFee, headGasUsed).value;
    if headGasUsed > c.targetGas {
      var accounts, txs := SomeAdmitsBelow(c, p, headBaseFee, baseFee);
    } else if accounts, txs :| AdmitsBelow(c, p, accounts, headBaseFee, baseFee, txs) {
      var pool := AdmitAll(c, p, accounts, headBaseFee, txs).value;
      var selected := CandidateOf(c, pool, accounts, headBaseFee);
      var i :| 0 <= i < |selected| && selected[i].maxFee < baseFee;
      NeverPricedOut(c, pool, accounts, headBaseFee, headGasUsed, i);
    }
  }

  // ------------------------------------------------------- after finalization

  function KeySet(picks: seq<Key>): set<Key> {
    set k | k in picks
  }

  lemma KeySetGrows(picks: seq<Key>, last: Key)
    ensures KeySet(picks + [last]) == KeySet(picks) + {last}
  {
  }

  /** Once its block is final, exactly the candidate's transactions have left the pool. */
  lemma {:induction false} IncludedLeave(c: Config, pool: Pool, picks: seq<Key>, selected: seq<Tx>)
    requires Keyed(pool.txs) && IsContents(pool.txs, picks, selected)
    ensures RemoveAll(c, pool, selected).txs == pool.txs - KeySet(picks)
  {
    if picks != [] {
      var n := |picks| - 1;
      IncludedLeave(c, pool, picks[..n], selected[..n]);
      assert picks == picks[..n] + [picks[n]];
      KeySetGrows(picks[..n], picks[n]);
      RemoveOne(c, pool, RemoveAll(c, pool, selected[..n]), KeySet(picks[..n]), picks[n]);
    }
  }

  lemma RemoveOne(c: Config, pool: Pool, before: Pool, gone: set<Key>, key: Key)
    requires Keyed(pool.txs) && key in pool.txs && before.txs == pool.txs - gone
    ensures Remove(c, before, pool.txs[key]).txs == pool.txs - (gone + {key})
  {
    assert KeyOf(pool.txs[key]) == key;
  }

  datatype Proposal = Proposal(candidate: BlockCandidate, block: K.Block)

  datatype ProposalError = PoolRefuses(pool: PoolError) | KernelRefuses(kernel: K.KernelError)

  /** Builds a candidate on the head and runs it. */
  method ExecuteCandidate(pool: TransactionPool, headBaseFee: int, headGasUsed: int, accounts: Accounts,
                          verifier: Tx -> bool)
    returns (r: Result<Proposal, ProposalError>)
    requires pool.Valid()
    ensures var selected := CandidateOf(pool.config, pool.Contents(), accounts, headBaseFee);
            match K.BlockOf(pool.config, headBaseFee, headGasUsed, accounts, selected, verifier)
            case Err(e) => r == Err(KernelRefuses(e))
            case Ok(block) => r.Ok? && r.value.block == block && r.value.candidate.transactions == selected
  {
    var candidate := pool.BuildCandidate(accounts, headBaseFee, None);
    ChosenIsContents(pool.transactions,
                     Selection(pool.config, pool.transactions, accounts, headBaseFee, pool.config.blockGasLimit),
                     candidate.value.transactions);
    var block := K.ExecuteBlock(pool.config, headBaseFee, headGasUsed, accounts, candidate.value.transactions,
                                verifier);
    if block.Err? { return Err(KernelRefuses(block.error)); }
    return Ok(Proposal(candidate.value, block.value));
  }
}
