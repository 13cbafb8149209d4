/** What the rewards are that candidates are picked by: the tips a block pays. */
module TipsPaid {
  import opened BlockProduction
  import opened Candidate
  import opened Mempool
  import opened Prelude
  import opened Protocol
  import opened TransactionPools
  import K = Kernel

  /** The reward is the largest amount that neither the tip offered nor the fee cap is exceeded by. */
  lemma RewardIsCapped(tx: Tx, baseFee: int)
    ensures Reward(tx, baseFee) <= tx.maxPriorityFee && baseFee + Reward(tx, baseFee) <= tx.maxFee
    ensures Reward(tx, baseFee) == tx.maxPriorityFee || baseFee + Reward(tx, baseFee) == tx.maxFee
  {
  }

  /** So is the priority fee that a block charges; with the base fee it is the effective price, and the
      receipt splits what is paid for the gas into what is burned and the tip. */
  lemma PriorityFeeIsCapped(c: Config, tx: Tx, index: nat, baseFee: int)
    ensures var (fee, receipt) := (K.PriorityFee(tx, baseFee), K.ReceiptOf(c, tx, index, baseFee));
            && fee <= tx.maxPriorityFee && baseFee + fee <= tx.maxFee
            && (fee == tx.maxPriorityFee || baseFee + fee == tx.maxFee)
            && receipt.effectivePrice == baseFee + fee
            && receipt.gasUsed == c.intrinsicGas
            && receipt.burned == c.intrinsicGas * baseFee && receipt.tip == c.intrinsicGas * fee
            && K.Debit(c, tx, baseFee) == tx.value + receipt.burned + receipt.tip
  {
    Distributes(c.intrinsicGas, baseFee, K.PriorityFee(tx, baseFee));
  }

  lemma Distributes(k: int, a: int, b: int)
    ensures k * (a + b) == k * a + k * b
  {
  }

  /** The tip on a transaction's receipt is the intrinsic gas times its reward. */
  lemma TipIsReward(c: Config, tx: Tx, index: nat, baseFee: int)
    ensures K.ReceiptOf(c, tx, index, baseFee).tip == c.intrinsicGas * Reward(tx, baseFee)
  {
    assert K.PriorityFee(tx, baseFee) == Reward(tx, baseFee);
  }

  function RewardSum(txs: seq<Tx>, baseFee: int): int {
    if txs == [] then 0 else RewardSum(txs[..|txs| - 1], baseFee) + Reward(txs[|txs| - 1], baseFee)
  }

  /** The tips of a block are the intrinsic gas times its transactions' rewards. */
  lemma {:induction false} TipsAreRewards(c: Config, accounts: Accounts, txs: seq<Tx>, baseFee: int,
                                          verifier: Tx -> bool)
    requires K.Execute(c, accounts, txs, baseFee, verifier).Ok?
    ensures K.Execute(c, accounts, txs, baseFee, verifier).value.tips == c.intrinsicGas * RewardSum(txs, baseFee)
  {
    if txs != [] {
      var (rest, last) := (txs[..|txs| - 1], txs[|txs| - 1]);
      TipsAreRewards(c, accounts, rest, baseFee, verifier);
      TipIsReward(c, last, |rest|, baseFee);
      Distributes(c.intrinsicGas, RewardSum(rest, baseFee), Reward(last, baseFee));
    }
  }

  lemma {:induction false} TotalFromBack(txs: Txs, baseFee: int, picks: seq<Key>, last: Key)
    requires last in txs && forall i | 0 <= i < |picks| :: picks[i] in txs
    ensures TotalOf(txs, baseFee, picks + [last]) == TotalOf(txs, baseFee, picks) + Reward(txs[last], baseFee)
  {
    if picks == [] {
      assert picks + [last] == [last] && [last][1..] == [];
    } else {
      assert (picks + [last])[1..] == picks[1..] + [last];
      TotalFromBack(txs, baseFee, picks[1..], last);
    }
  }

  lemma {:induction false} RewardsOfContents(txs: Txs, baseFee: int, picks: seq<Key>, selected: seq<Tx>)
    requires IsContents(txs, picks, selected) && forall i | 0 <= i < |picks| :: picks[i] in txs
    ensures TotalOf(txs, baseFee, picks) == RewardSum(selected, baseFee)
  {
    if picks != [] {
      var n := |picks| - 1;
      RewardsOfContents(txs, baseFee, picks[..n], selected[..n]);
      TotalFromBack(txs, baseFee, picks[..n], picks[n]);
      assert picks[..n] + [picks[n]] == picks;
    }
  }

  // ------------------------------------------------------- any other block

  /** Different pending transactions. */
  ghost predicate FromPool(txs: Txs, other: seq<Tx>) {
    forall i | 0 <= i < |other| :: KeyOf(other[i]) in txs && txs[KeyOf(other[i])] == other[i]
  }

  function KeysOf(other: seq<Tx>): set<Key> {
    set i | 0 <= i < |other| :: KeyOf(other[i])
  }

  lemma KeysOfGrow(rest: seq<Tx>, last: Tx)
    ensures KeysOf(rest + [last]) == KeysOf(rest) + {KeyOf(last)}
  {
    var all := rest + [last];
    assert all[|rest|] == last && forall i | 0 <= i < |rest| :: all[i] == rest[i];
    forall k | k in KeysOf(rest)
      ensures k in KeysOf(all)
    {
      var i :| 0 <= i < |rest| && KeyOf(rest[i]) == k;
      assert KeyOf(all[i]) == k;
    }
  }

  /** The senders' nonces run without a gap as far as they have been bumped. */
  ghost predicate Filled(next: Nonces, other: seq<Tx>) {
    forall a, n | NextOf(next, a) <= n < NextOf(next, a) + K.BumpsOf(other, a) :: (a, n) in KeysOf(other)
  }

  lemma FilledGrows(accounts: Accounts, rest: seq<Tx>, last: Tx)
    requires Filled(StartNonces(accounts), rest)
    requires last.nonce == AccountOf(accounts, last.sender).nonce + K.BumpsOf(rest, last.sender)
    ensures Filled(StartNonces(accounts), rest + [last])
  {
    var all := rest + [last];
    KeysOfGrow(rest, last);
    assert all[..|rest|] == rest && all[|rest|] == last;
    forall a, n | NextOf(StartNonces(accounts), a) <= n < NextOf(StartNonces(accounts), a) + K.BumpsOf(all, a)
      ensures (a, n) in KeysOf(all)
    {
      if n < NextOf(StartNonces(accounts), a) + K.BumpsOf(rest, a) {
        assert (a, n) in KeysOf(rest);
      } else {
        assert a == last.sender && n == last.nonce;
      }
    }
  }

  /** What runs is a selection that respects the nonces, and its keys are all different. */
  ghost predicate RespectsNonces(txs: Txs, next: Nonces, baseFee: int, other: seq<Tx>) {
    && NonceRespecting(txs, next, baseFee, KeysOf(other)) && |KeysOf(other)| == |other| && Filled(next, other)
    && Total(txs, baseFee, KeysOf(other)) == RewardSum(other, baseFee)
  }

  lemma KeyIsNew(c: Config, txs: Txs, rest: seq<Tx>, last: Tx)
    requires FromPool(txs, rest + [last]) && forall j | 0 <= j < |rest| :: c.hashOf(rest[j]) != c.hashOf(last)
    ensures KeyOf(last) !in KeysOf(rest) && KeyOf(last) in txs && txs[KeyOf(last)] == last
  {
    var all := rest + [last];
    assert all[|rest|] == last;
    forall i | 0 <= i < |rest|
      ensures KeyOf(rest[i]) != KeyOf(last)
    {
      assert all[i] == rest[i] && c.hashOf(rest[i]) != c.hashOf(last);
    }
  }

  lemma NextNonceRespecting(txs: Txs, accounts: Accounts, baseFee: int, rest: seq<Tx>, last: Tx)
    requires NonceRespecting(txs, StartNonces(accounts), baseFee, KeysOf(rest)) && Filled(StartNonces(accounts), rest)
    requires KeyOf(last) in txs && txs[KeyOf(last)] == last && Payable(last, baseFee)
    requires last.nonce == AccountOf(accounts, last.sender).nonce + K.BumpsOf(rest, last.sender)
    ensures NonceRespecting(txs, StartNonces(accounts), baseFee, KeysOf(rest) + {KeyOf(last)})
  {
    var next := StartNonces(accounts);
    assert NextOf(next, last.sender) == AccountOf(accounts, last.sender).nonce;
    forall n | NextOf(next, last.sender) <= n < last.nonce
      ensures (last.sender, n) in KeysOf(rest)
    {
      assert n < NextOf(next, last.sender) + K.BumpsOf(rest, last.sender);
    }
  }

  lemma TotalAdd(txs: Txs, baseFee: int, keys: set<Key>, k: Key)
    requires keys <= txs.Keys && k in txs && k !in keys
    ensures Total(txs, baseFee, keys + {k}) == Total(txs, baseFee, keys) + Reward(txs[k], baseFee)
  {
    TotalRemove(txs, baseFee, keys + {k}, k);
    assert keys + {k} - {k} == keys;
  }

  lemma SumAdd(rest: seq<Tx>, last: Tx, baseFee: int)
    ensures RewardSum(rest + [last], baseFee) == RewardSum(rest, baseFee) + Reward(last, baseFee)
  {
    assert (rest + [last])[..|rest|] == rest;
  }

  lemma NextRespects(txs: Txs, accounts: Accounts, baseFee: int, rest: seq<Tx>, last: Tx)
    requires RespectsNonces(txs, StartNonces(accounts), baseFee, rest)
    requires KeyOf(last) !in KeysOf(rest) && KeyOf(last) in txs && txs[KeyOf(last)] == last && Payable(last, baseFee)
    requires last.nonce == AccountOf(accounts, last.sender).nonce + K.BumpsOf(rest, last.sender)
    ensures RespectsNonces(txs, StartNonces(accounts), baseFee, rest + [last])
  {
    KeysOfGrow(rest, last);
    FilledGrows(accounts, rest, last);
    NextNonceRespecting(txs, accounts, baseFee, rest, last);
    TotalAdd(txs, baseFee, KeysOf(rest), KeyOf(last));
    SumAdd(rest, last, baseFee);
  }

  lemma ExecutedPrefix(c: Config, accounts: Accounts, rest: seq<Tx>, last: Tx, baseFee: int, verifier: Tx -> bool)
    requires K.Execute(c, accounts, rest + [last], baseFee, verifier).Ok?
    ensures K.Execute(c, accounts, rest, baseFee, verifier).Ok?
    ensures K.ExecutableAt(c, accounts, rest, last, baseFee, verifier)
  {
    K.ExecutesIff(c, accounts, rest + [last], baseFee, verifier);
    K.ExecutesIff(c, accounts, rest, baseFee, verifier);
    K.ExecutableGrows(c, accounts, rest, last, baseFee, verifier);
  }

  /** What the last transaction of a block from the pool adds to the ones before it. */
  ghost predicate Follows(txs: Txs, accounts: Accounts, baseFee: int, rest: seq<Tx>, last: Tx) {
    && FromPool(txs, rest)
    && KeyOf(last) !in KeysOf(rest) && KeyOf(last) in txs && txs[KeyOf(last)] == last && Payable(last, baseFee)
    && last.nonce == AccountOf(accounts, last.sender).nonce + K.BumpsOf(rest, last.sender)
  }

  lemma ExecutedFollows(c: Config, txs: Txs, accounts: Accounts, baseFee: int, rest: seq<Tx>, last: Tx,
                        verifier: Tx -> bool)
    requires FromPool(txs, rest + [last]) && K.Execute(c, accounts, rest + [last], baseFee, verifier).Ok?
    ensures K.Execute(c, accounts, rest, baseFee, verifier).Ok? && Follows(txs, accounts, baseFee, rest, last)
  {
    ExecutedPrefix(c, accounts, rest, last, baseFee, verifier);
    KeyIsNew(c, txs, rest, last);
    assert forall i | 0 <= i < |rest| :: (rest + [last])[i] == rest[i];
  }

  lemma {:induction false} ExecutedRespects(c: Config, txs: Txs, accounts: Accounts, baseFee: int, other: seq<Tx>,
                                            verifier: Tx -> bool)
    requires FromPool(txs, other) && K.Execute(c, accounts, other, baseFee, verifier).Ok?
    ensures RespectsNonces(txs, StartNonces(accounts), baseFee, other)
  {
    if other == [] {
      assert KeysOf(other) == {};
    } else {
      var (rest, last) := (other[..|other| - 1], other[|other| - 1]);
      assert rest + [last] == other;
      ExecutedFollows(c, txs, accounts, baseFee, rest, last, verifier);
      ExecutedRespects(c, txs, accounts, baseFee, rest, verifier);
      NextRespects(txs, accounts, baseFee, rest, last);
    }
  }

  // ---------------------------------------------------------------- optimality

  ghost predicate NoNegativeReward(txs: Txs, baseFee: int, picks: seq<Key>) {
    forall i | 0 <= i < |picks| :: picks[i] in txs && Reward(txs[picks[i]], baseFee) >= 0
  }

  /** More picks earn no less. */
  lemma {:induction false} MoreEarnsMore(txs: Txs, baseFee: int, few: seq<Key>, many: seq<Key>)
    requires few <= many && NoNegativeReward(txs, baseFee, many)
    ensures (forall i | 0 <= i < |few| :: few[i] in txs) && TotalOf(txs, baseFee, few) <= TotalOf(txs, baseFee, many)
    decreases many
  {
    if few != many {
      var n := |many| - 1;
      MoreEarnsMore(txs, baseFee, few, many[..n]);
      TotalFromBack(txs, baseFee, many[..n], many[n]);
      assert many[..n] + [many[n]] == many;
    }
  }

  lemma ExecutedEarns(c: Config, accounts: Accounts, selected: seq<Tx>, baseFee: int, verifier: Tx -> bool)
    requires K.Execute(c, accounts, selected, baseFee, verifier).Ok?
    ensures forall i | 0 <= i < |selected| :: Reward(selected[i], baseFee) >= 0
  {
    K.ExecutesIff(c, accounts, selected, baseFee, verifier);
    forall i | 0 <= i < |selected|
      ensures Reward(selected[i], baseFee) >= 0
    {
      assert K.ExecutableAt(c, accounts, selected[..i], selected[i], baseFee, verifier);
    }
  }

  lemma ExecutedFits(c: Config, accounts: Accounts, other: seq<Tx>, baseFee: int, verifier: Tx -> bool)
    requires c.Valid() && K.Execute(c, accounts, other, baseFee, verifier).Ok?
    ensures |other| <= Affordable(c, c.blockGasLimit)
  {
    if other != [] {
      K.ExecutesIff(c, accounts, other, baseFee, verifier);
      var n := |other| - 1;
      assert K.ExecutableAt(c, accounts, other[..n], other[n], baseFee, verifier);
      AffordableIff(c, c.blockGasLimit, n);
    }
  }

  lemma PicksEarnMost(c: Config, txs: Txs, accounts: Accounts, baseFee: int, keys: set<Key>)
    requires c.Valid() && DistinctHashes(c, txs) && RewardsFall(txs, baseFee)
    requires NonceRespecting(txs, StartNonces(accounts), baseFee, keys) && |keys| <= Affordable(c, c.blockGasLimit)
    requires NoNegativeReward(txs, baseFee, Selection(c, txs, accounts, baseFee, c.blockGasLimit))
    ensures Total(txs, baseFee, keys) <= TotalOf(txs, baseFee, Selection(c, txs, accounts, baseFee, c.blockGasLimit))
  {
    var next := StartNonces(accounts);
    GreedyIsOptimal(c, txs, next, baseFee, keys);
    PicksArePrefix(c, txs, next, baseFee, |keys|, Affordable(c, c.blockGasLimit));
    MoreEarnsMore(txs, baseFee, Picks(c, txs, next, baseFee, |keys|),
                  Selection(c, txs, accounts, baseFee, c.blockGasLimit));
  }

  /** What the candidate's transactions earn, and that none earns less than nothing. */
  lemma CandidateEarns(c: Config, pool: Pool, accounts: Accounts, baseFee: int, verifier: Tx -> bool)
    requires c.Valid() && DistinctHashes(c, pool.txs)
    requires K.Execute(c, accounts, CandidateOf(c, pool, accounts, baseFee), baseFee, verifier).Ok?
    ensures var picks := Selection(c, pool.txs, accounts, baseFee, c.blockGasLimit);
            && NoNegativeReward(pool.txs, baseFee, picks)
            && RewardSum(CandidateOf(c, pool, accounts, baseFee), baseFee) == TotalOf(pool.txs, baseFee, picks)
  {
    var picks := Selection(c, pool.txs, accounts, baseFee, c.blockGasLimit);
    var selected := CandidateOf(c, pool, accounts, baseFee);
    PicksInNonceOrder(c, pool.txs, StartNonces(accounts), baseFee, Affordable(c, c.blockGasLimit));
    ExecutedEarns(c, accounts, selected, baseFee, verifier);
    assert IsContents(pool.txs, picks, selected);
    assert forall i | 0 <= i < |picks| :: selected[i] == pool.txs[picks[i]];
    RewardsOfContents(pool.txs, baseFee, picks, selected);
  }

  /** Another block earns no more than the picks. */
  lemma OtherEarnsLess(c: Config, txs: Txs, accounts: Accounts, baseFee: int, other: seq<Tx>, verifier: Tx -> bool)
    requires c.Valid() && DistinctHashes(c, txs) && RewardsFall(txs, baseFee)
    requires FromPool(txs, other) && K.Execute(c, accounts, other, baseFee, verifier).Ok?
    requires NoNegativeReward(txs, baseFee, Selection(c, txs, accounts, baseFee, c.blockGasLimit))
    ensures RewardSum(other, baseFee) <= TotalOf(txs, baseFee, Selection(c, txs, accounts, baseFee, c.blockGasLimit))
  {
    ExecutedFits(c, accounts, other, baseFee, verifier);
    ExecutedRespects(c, txs, accounts, baseFee, other, verifier);
    PicksEarnMost(c, txs, accounts, baseFee, KeysOf(other));
  }

  lemma LessEarnedIsLessPaid(c: Config, accounts: Accounts, a: seq<Tx>, b: seq<Tx>, baseFee: int, verifier: Tx -> bool)
    requires c.Valid() && RewardSum(a, baseFee) <= RewardSum(b, baseFee)
    requires K.Execute(c, accounts, a, baseFee, verifier).Ok? && K.Execute(c, accounts, b, baseFee, verifier).Ok?
    ensures K.Execute(c, accounts, a, baseFee, verifier).value.tips <=
            K.Execute(c, accounts, b, baseFee, verifier).value.tips
  {
    TipsAreRewards(c, accounts, a, baseFee, verifier);
    TipsAreRewards(c, accounts, b, baseFee, verifier);
    LessTimesLess(c.intrinsicGas, RewardSum(a, baseFee), RewardSum(b, baseFee),
                  K.Execute(c, accounts, a, baseFee, verifier).value.tips,
                  K.Execute(c, accounts, b, baseFee, verifier).value.tips);
  }

  lemma LessTimesLess(k: int, a: int, b: int, ka: int, kb: int)
    requires 0 <= k && a <= b && ka == k * a && kb == k * b
    ensures ka <= kb
  {
    TimesOrdered(a, b, k);
  }

  /** When rewards do not rise with the nonce, no block made of pending transactions pays more in tips
      than the block of the greedy candidate, executed at the base fee it was picked for. */
  lemma GreedyBlockPaysMost(c: Config, pool: Pool, accounts: Accounts, baseFee: int, other: seq<Tx>,
                            verifier: Tx -> bool)
    requires c.Valid() && DistinctHashes(c, pool.txs) && RewardsFall(pool.txs, baseFee)
    requires FromPool(pool.txs, other) && K.Execute(c, accounts, other, baseFee, verifier).Ok?
    requires K.Execute(c, accounts, CandidateOf(c, pool, accounts, baseFee), baseFee, verifier).Ok?
    ensures K.Execute(c, accounts, other, baseFee, verifier).value.tips <=
            K.Execute(c, accounts, CandidateOf(c, pool, accounts, baseFee), baseFee, verifier).value.tips
  {
    var selected := CandidateOf(c, pool, accounts, baseFee);
    CandidateEarns(c, pool, accounts, baseFee, verifier);
    OtherEarnsLess(c, pool.txs, accounts, baseFee, other, verifier);
    LessEarnedIsLessPaid(c, accounts, other, selected, baseFee, verifier);
  }
}
