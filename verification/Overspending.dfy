/** Admission looks at each transaction alone: two of one sender can both be admitted and picked,
    and refuse their block together. */
module Overspending {
  import opened BlockProduction
  import opened Candidate
  import opened Mempool
  import opened Prelude
  import opened Protocol
  import K = Kernel

  /** Two transactions of one sender to others, at its next two nonces. */
  ghost predicate Successive(c: Config, accounts: Accounts, a: Tx, b: Tx) {
    && a.sender == b.sender && a.recipient != a.sender && b.recipient != b.sender
    && a.nonce == AccountOf(accounts, a.sender).nonce && b.nonce == a.nonce + 1
    && c.hashOf(a) != c.hashOf(b)
  }

  function Both(c: Config, a: Tx, b: Tx): Pool {
    Pool(map[KeyOf(a) := a, KeyOf(b) := b], {c.hashOf(a), c.hashOf(b)})
  }

  lemma BothAdmitted(c: Config, p: Policy, accounts: Accounts, baseFee: int, a: Tx, b: Tx)
    requires p.Valid() && 2 <= p.maxTransactions && 2 <= p.maxPerSender && Successive(c, accounts, a, b)
    requires Covered(c, p, accounts, baseFee, a) && Covered(c, p, accounts, baseFee, b)
    ensures AdmitAll(c, p, accounts, baseFee, [a, b]) == Ok(Both(c, a, b))
  {
    FirstAdmitted(c, p, accounts, baseFee, a);
    assert [a, b][..1] == [a];
    assert SenderKeys(map[KeyOf(a) := a], b.sender) == {KeyOf(a)};
    assert {c.hashOf(a)} + {c.hashOf(b)} == {c.hashOf(a), c.hashOf(b)};
  }

  /** The heads of two successive transactions alone in a pool, as their sender's nonce goes up. */
  lemma HeadsOfTwo(txs: Txs, next: Nonces, baseFee: int, first: Key, second: Key)
    requires txs.Keys == {first, second} && second == (first.0, first.1 + 1)
    requires Payable(txs[first], baseFee) && Payable(txs[second], baseFee)
    ensures NextOf(next, first.0) == first.1 ==> Heads(txs, next, baseFee) == {first}
    ensures NextOf(next, first.0) == second.1 ==> Heads(txs, next, baseFee) == {second}
    ensures NextOf(next, first.0) > second.1 ==> Heads(txs, next, baseFee) == {}
  {
  }

  lemma TwoPicked(c: Config, txs: Txs, next: Nonces, baseFee: int, first: Key, second: Key, count: nat)
    requires txs.Keys == {first, second} && second == (first.0, first.1 + 1) && DistinctHashes(c, txs) && 2 <= count
    requires Payable(txs[first], baseFee) && Payable(txs[second], baseFee) && NextOf(next, first.0) == first.1
    ensures Picks(c, txs, next, baseFee, count) == [first, second]
  {
    var later := Advance(next, first);
    HeadsOfTwo(txs, next, baseFee, first, second);
    HeadsOfTwo(txs, later, baseFee, first, second);
    HeadsOfTwo(txs, Advance(later, second), baseFee, first, second);
    NextPick(c, txs, next, baseFee, count, first);
    NextPick(c, txs, later, baseFee, count - 1, second);
  }

  lemma BothPicked(c: Config, accounts: Accounts, baseFee: int, a: Tx, b: Tx)
    requires c.Valid() && 2 * c.intrinsicGas <= c.blockGasLimit && Successive(c, accounts, a, b)
    requires a.maxFee >= baseFee && b.maxFee >= baseFee
    ensures Selection(c, Both(c, a, b).txs, accounts, baseFee, c.blockGasLimit) == [KeyOf(a), KeyOf(b)]
  {
    AffordableIff(c, c.blockGasLimit, 1);
    TwoPicked(c, Both(c, a, b).txs, StartNonces(accounts), baseFee, KeyOf(a), KeyOf(b), Affordable(c, c.blockGasLimit));
  }

  lemma BothAreCandidate(c: Config, accounts: Accounts, baseFee: int, a: Tx, b: Tx)
    requires c.Valid() && 2 * c.intrinsicGas <= c.blockGasLimit && Successive(c, accounts, a, b)
    requires a.maxFee >= baseFee && b.maxFee >= baseFee
    ensures CandidateOf(c, Both(c, a, b), accounts, baseFee) == [a, b]
  {
    BothPicked(c, accounts, baseFee, a, b);
    ChosenIsContents(Both(c, a, b).txs, [KeyOf(a), KeyOf(b)], [a, b]);
  }

  lemma CoverIsEnough(c: Config, p: Policy, accounts: Accounts, headBaseFee: int, tx: Tx, baseFee: int)
    requires c.Valid() && Covered(c, p, accounts, headBaseFee, tx) && K.TxError(c, tx, baseFee).None?
    ensures K.Debit(c, tx, baseFee) <= AccountOf(accounts, tx.sender).balance
  {
    TimesOrdered(baseFee + K.PriorityFee(tx, baseFee), tx.maxFee, c.intrinsicGas);
    TimesOrdered(c.intrinsicGas, tx.gasLimit, tx.maxFee);
  }

  /** The first transaction runs; the second runs if the rest covers it. */
  lemma SecondRunsIff(c: Config, accounts: Accounts, a: Tx, b: Tx, baseFee: int, verifier: Tx -> bool)
    requires c.Valid() && 2 * c.intrinsicGas <= c.blockGasLimit && Successive(c, accounts, a, b)
    requires K.TxError(c, a, baseFee).None? && K.TxError(c, b, baseFee).None? && verifier(a) && verifier(b)
    requires K.Debit(c, a, baseFee) <= AccountOf(accounts, a.sender).balance
    ensures var r := K.Execute(c, accounts, [a, b], baseFee, verifier);
            if K.Debit(c, a, baseFee) + K.Debit(c, b, baseFee) <= AccountOf(accounts, a.sender).balance then r.Ok?
            else r == Err(K.InsufficientBalance)
  {
    assert [a, b][..1] == [a] && [a][..0] == [];
    assert K.Execute(c, accounts, [], baseFee, verifier) == Ok(K.Begin(accounts));
    assert K.Execute(c, accounts, [a], baseFee, verifier) == K.Apply(c, K.Begin(accounts), a, baseFee, true);
    K.TransferMoves(accounts, a, K.Debit(c, a, baseFee), a.sender);
  }

  /** Two successive transactions that are each covered alone are admitted and picked together.
      Their block is refused for balance exactly when their debits together exceed it. */
  lemma OverspendingIff(c: Config, p: Policy, accounts: Accounts, headBaseFee: int, headGasUsed: int, a: Tx, b: Tx,
                        verifier: Tx -> bool)
    requires c.Valid() && p.Valid() && 2 <= p.maxTransactions && 2 <= p.maxPerSender
    requires 2 * c.intrinsicGas <= c.blockGasLimit && Successive(c, accounts, a, b)
    requires Covered(c, p, accounts, headBaseFee, a) && Covered(c, p, accounts, headBaseFee, b)
    requires K.NextBaseFee(c, headBaseFee, headGasUsed).Ok? && verifier(a) && verifier(b)
    requires Sound(c, accounts, K.NextBaseFee(c, headBaseFee, headGasUsed).value, [a, b])
    ensures AdmitAll(c, p, accounts, headBaseFee, [a, b]) == Ok(Both(c, a, b))
    ensures CandidateOf(c, Both(c, a, b), accounts, headBaseFee) == [a, b]
    ensures var (r, baseFee) := (K.BlockOf(c, headBaseFee, headGasUsed, accounts, [a, b], verifier),
                                 K.NextBaseFee(c, headBaseFee, headGasUsed).value);
            if K.Debit(c, a, baseFee) + K.Debit(c, b, baseFee) <= AccountOf(accounts, a.sender).balance then r.Ok?
            else r == Err(K.InsufficientBalance)
  {
    var baseFee := K.NextBaseFee(c, headBaseFee, headGasUsed).value;
    BothAdmitted(c, p, accounts, headBaseFee, a, b);
    BothAreCandidate(c, accounts, headBaseFee, a, b);
    assert K.TxError(c, [a, b][0], baseFee).None? && K.TxError(c, [a, b][1], baseFee).None?;
    CoverIsEnough(c, p, accounts, headBaseFee, a, baseFee);
    SecondRunsIff(c, accounts, a, b, baseFee, verifier);
  }

  lemma PlainDebit(c: Config, tx: Tx, fee: int)
    requires c.Valid() && 0 < fee && tx.value == 0 && tx.maxFee == fee && K.TxError(c, tx, fee).None?
    ensures K.Debit(c, tx, fee) == c.intrinsicGas * fee && 0 < K.Debit(c, tx, fee)
  {
    assert K.PriorityFee(tx, fee) == 0;
    TimesOrdered(1, fee, c.intrinsicGas);
  }

  /** A sender that can pay for either of two transactions but not for both. */
  lemma PlainsOverspend(c: Config, p: Policy, accounts: Accounts, fee: int, a: Tx, b: Tx, verifier: Tx -> bool)
    requires c.Valid() && p.Valid() && 2 <= p.maxTransactions && 2 <= p.maxPerSender && 0 < fee
    requires 2 * c.intrinsicGas <= c.blockGasLimit && Successive(c, accounts, a, b)
    requires Covered(c, p, accounts, fee, a) && Covered(c, p, accounts, fee, b) && Sound(c, accounts, fee, [a, b])
    requires PaysForOne(c, accounts, a.sender, fee) && a.value == b.value == 0 && a.maxFee == b.maxFee == fee
    requires verifier(a) && verifier(b)
    ensures AdmitAll(c, p, accounts, fee, [a, b]) == Ok(Both(c, a, b)) &&
            CandidateOf(c, Both(c, a, b), accounts, fee) == [a, b]
    ensures K.BlockOf(c, fee, c.targetGas, accounts, [a, b], verifier) == Err(K.InsufficientBalance)
  {
    assert K.TxError(c, [a, b][0], fee).None? && K.TxError(c, [a, b][1], fee).None?;
    PlainDebit(c, a, fee);
    PlainDebit(c, b, fee);
    OverspendingIff(c, p, accounts, fee, c.targetGas, a, b, verifier);
  }

  /** Two sound transactions are admitted and picked, and refused together. */
  ghost predicate Overspends(c: Config, p: Policy, accounts: Accounts, fee: int, a: Tx, b: Tx, verifier: Tx -> bool)
    requires c.Valid()
  {
    && Sound(c, accounts, fee, [a, b])
    && AdmitAll(c, p, accounts, fee, [a, b]) == Ok(Both(c, a, b)) && Invariant(c, p, Both(c, a, b))
    && CandidateOf(c, Both(c, a, b), accounts, fee) == [a, b]
    && K.BlockOf(c, fee, c.targetGas, accounts, [a, b], verifier) == Err(K.InsufficientBalance)
  }

  /** It happens after a block at the target: two sound transactions are admitted one after the
      other and picked together, and their block is refused for balance. */
  lemma CandidateCanOverspend(c: Config, p: Policy, fee: int, sender: string, recipient: string, verifier: Tx -> bool)
    returns (accounts: Accounts)
    requires c.Valid() && p.Valid() && 2 <= p.maxTransactions && 2 <= p.maxPerSender && 0 < fee
    requires 2 * c.intrinsicGas <= c.blockGasLimit && K.IsAddress(sender) && K.IsAddress(recipient) &&
             sender != recipient
    requires var (a, b) := (Plain(c, sender, recipient, fee, 0), Plain(c, sender, recipient, fee, 1));
             c.hashOf(a) != c.hashOf(b) && verifier(a) && verifier(b)
    ensures Overspends(c, p, accounts, fee, Plain(c, sender, recipient, fee, 0), Plain(c, sender, recipient, fee, 1),
                       verifier)
  {
    var (a, b) := (Plain(c, sender, recipient, fee, 0), Plain(c, sender, recipient, fee, 1));
    accounts := SomePaysForOne(c, sender, fee);
    PlainIsSound(c, sender, recipient, fee, 0);
    PlainIsSound(c, sender, recipient, fee, 1);
    PlainIsCovered(c, p, accounts, sender, recipient, fee, 0);
    PlainIsCovered(c, p, accounts, sender, recipient, fee, 1);
    PlainsOverspend(c, p, accounts, fee, a, b, verifier);
    AdmittedIsConsistent(c, p, accounts, fee, [a, b]);
  }
}
