/** Where the money goes: supply over a block and over a chain of blocks, and how often a
    transaction can run. */
module Conservation {
  import opened Kernel
  import opened Prelude
  import opened Protocol
  import opened Weights

  ghost function Balances(accounts: Accounts): map<string, nat> {
    map a | a in accounts :: accounts[a].balance
  }

  ghost function Supply(accounts: Accounts): nat {
    Weight(Balances(accounts), accounts.Keys)
  }

  lemma SetAccount(accounts: Accounts, a: string, account: Account)
    ensures Supply(accounts[a := account]) + AccountOf(accounts, a).balance == Supply(accounts) + account.balance
  {
    var after := accounts[a := account];
    var others := accounts.Keys - {a};
    WeightRemove(Balances(after), after.Keys, a);
    assert after.Keys - {a} == others;
    WeightAgree(Balances(after), Balances(accounts), others);
    if a in accounts {
      WeightRemove(Balances(accounts), accounts.Keys, a);
    } else {
      assert others == accounts.Keys;
    }
  }

  lemma TransferSupply(accounts: Accounts, tx: Tx, debit: int)
    requires 0 <= tx.value && debit <= AccountOf(accounts, tx.sender).balance
    ensures Supply(Transfer(accounts, tx, debit)) == Supply(accounts) + tx.value - (if PaysItself(tx) then 0 else debit)
  {
    var (sender, recipient) := (AccountOf(accounts, tx.sender), AccountOf(accounts, tx.recipient));
    var debited := accounts[tx.sender := Account(sender.balance - debit, sender.nonce + 1)];
    SetAccount(accounts, tx.sender, Account(sender.balance - debit, sender.nonce + 1));
    SetAccount(debited, tx.recipient, Account(recipient.balance + tx.value, recipient.nonce));
  }

  /** The debits that payments to oneself announce but do not take. */
  ghost function Forgiven(c: Config, txs: seq<Tx>, baseFee: int): int {
    if txs == [] then 0
    else
      var last := txs[|txs| - 1];
      Forgiven(c, txs[..|txs| - 1], baseFee) + (if PaysItself(last) then Debit(c, last, baseFee) else 0)
  }

  lemma FeeSplits(c: Config, tx: Tx, baseFee: int)
    ensures Fee(c, tx, baseFee) == c.intrinsicGas * baseFee + c.intrinsicGas * PriorityFee(tx, baseFee)
  {
    Distribute(baseFee, PriorityFee(tx, baseFee), c.intrinsicGas);
  }

  lemma ApplySupply(c: Config, s: Progress, tx: Tx, baseFee: int, verified: bool)
    requires Apply(c, s, tx, baseFee, verified).Ok?
    ensures var next := Apply(c, s, tx, baseFee, verified).value;
            Supply(next.accounts) + next.burned + next.tips ==
            Supply(s.accounts) + s.burned + s.tips + (if PaysItself(tx) then Debit(c, tx, baseFee) else 0)
  {
    TransferSupply(s.accounts, tx, Debit(c, tx, baseFee));
    FeeSplits(c, tx, baseFee);
  }

  /** What a block leaves, burns and pays out is what there was, plus what payments to oneself
      were forgiven. */
  lemma {:induction false} BlockSupply(c: Config, accounts: Accounts, txs: seq<Tx>, baseFee: int, verifier: Tx -> bool)
    requires Execute(c, accounts, txs, baseFee, verifier).Ok?
    ensures var s := Execute(c, accounts, txs, baseFee, verifier).value;
            Supply(s.accounts) + s.burned + s.tips == Supply(accounts) + Forgiven(c, txs, baseFee)
  {
    if txs != [] {
      var (rest, last) := (txs[..|txs| - 1], txs[|txs| - 1]);
      BlockSupply(c, accounts, rest, baseFee, verifier);
      ApplySupply(c, Execute(c, accounts, rest, baseFee, verifier).value, last, baseFee, verifier(last));
    }
  }

  lemma DebitIsPositive(c: Config, tx: Tx, baseFee: int)
    requires c.Valid() && 1 <= baseFee && TxError(c, tx, baseFee).None?
    ensures 0 < Debit(c, tx, baseFee) && 0 <= PriorityFee(tx, baseFee)
  {
    AtLeastFactor(c.intrinsicGas, baseFee + PriorityFee(tx, baseFee));
  }

  lemma AtLeastFactor(a: int, b: int)
    requires 1 <= a && 1 <= b
    ensures 1 <= a * b
  {
  }

  lemma {:induction false} ForgivenIff(c: Config, txs: seq<Tx>, baseFee: int)
    requires c.Valid() && 1 <= baseFee
    requires forall i | 0 <= i < |txs| :: TxError(c, txs[i], baseFee).None?
    ensures 0 <= Forgiven(c, txs, baseFee)
    ensures Forgiven(c, txs, baseFee) == 0 <==> forall i | 0 <= i < |txs| :: !PaysItself(txs[i])
  {
    if txs != [] {
      ForgivenIff(c, txs[..|txs| - 1], baseFee);
      DebitIsPositive(c, txs[|txs| - 1], baseFee);
    }
  }

  /** A block conserves the supply exactly when nobody in it pays itself; otherwise it creates
      money, never destroys it. */
  lemma ConservedIff(c: Config, parentBaseFee: int, parentGasUsed: int, accounts: Accounts, txs: seq<Tx>,
                     verifier: Tx -> bool)
    requires c.Valid() && BlockOf(c, parentBaseFee, parentGasUsed, accounts, txs, verifier).Ok?
    ensures var b := BlockOf(c, parentBaseFee, parentGasUsed, accounts, txs, verifier).value;
            && Supply(b.accounts) + b.burned + b.tips >= Supply(accounts)
            && (Supply(b.accounts) + b.burned + b.tips == Supply(accounts)
                <==> forall i | 0 <= i < |txs| :: !PaysItself(txs[i]))
  {
    BaseFeeFollowsUsage(c, parentBaseFee, parentGasUsed);
    var baseFee := NextBaseFee(c, parentBaseFee, parentGasUsed).value;
    BlockSupply(c, accounts, txs, baseFee, verifier);
    ExecutesIff(c, accounts, txs, baseFee, verifier);
    forall i | 0 <= i < |txs|
      ensures TxError(c, txs[i], baseFee).None?
    {
      assert ExecutableAt(c, accounts, txs[..i], txs[i], baseFee, verifier);
    }
    ForgivenIff(c, txs, baseFee);
  }

  /** A payment of nothing to oneself that offers exactly the base fee. */
  function SelfPayment(c: Config, a: string, baseFee: int): Tx {
    Tx(c.chainId, a, a, 0, 0, c.intrinsicGas, baseFee, 0, [], [0])
  }

  /** Such blocks exist: under every configuration and base fee, an account that owns just the
      fee can pay itself, and the block leaves more money than there was. */
  lemma SelfPaymentCreatesMoney(c: Config, a: string, baseFee: int, balance: nat, verifier: Tx -> bool)
    requires c.Valid() && c.intrinsicGas <= c.blockGasLimit && 1 <= baseFee && IsAddress(a)
    requires verifier(SelfPayment(c, a, baseFee)) && balance == c.intrinsicGas * baseFee
    ensures var (tx, accounts) := (SelfPayment(c, a, baseFee), map[a := Account(balance, 0)]);
            var r := BlockOf(c, baseFee, c.targetGas, accounts, [tx], verifier);
            r.Ok? && Supply(r.value.accounts) + r.value.burned + r.value.tips > Supply(accounts)
  {
    var (tx, accounts) := (SelfPayment(c, a, baseFee), map[a := Account(balance, 0)]);
    assert NextBaseFee(c, baseFee, c.targetGas) == Ok(baseFee);
    assert Debit(c, tx, baseFee) == balance;
    assert ExecutableAt(c, accounts, [], tx, baseFee, verifier);
    assert [tx][..0] == [];
    ExecutesIff(c, accounts, [tx], baseFee, verifier);
    ConservedIff(c, baseFee, c.targetGas, accounts, [tx], verifier);
    assert PaysItself([tx][0]);
  }

  // ------------------------------------------------------------ chains of blocks

  /** The head of a chain, with everything that has been executed, burned and paid so far. */
  datatype Chain = Chain(accounts: Accounts, baseFee: int, gasUsed: int, burned: int, tips: int, executed: seq<Tx>)

  predicate Grows(c: Config, chain: Chain, txs: seq<Tx>, verifier: Tx -> bool)
    requires c.Valid()
  {
    BlockOf(c, chain.baseFee, chain.gasUsed, chain.accounts, txs, verifier).Ok?
  }

  /** A refused block leaves the chain alone. */
  function Extend(c: Config, chain: Chain, txs: seq<Tx>, verifier: Tx -> bool): Chain
    requires c.Valid()
  {
    if !Grows(c, chain, txs, verifier) then chain
    else
      var b := BlockOf(c, chain.baseFee, chain.gasUsed, chain.accounts, txs, verifier).value;
      Chain(b.accounts, b.baseFee, b.gasUsed, chain.burned + b.burned, chain.tips + b.tips, chain.executed + txs)
  }

  function Grown(c: Config, chain: Chain, blocks: seq<seq<Tx>>, verifier: Tx -> bool): Chain
    requires c.Valid()
  {
    if blocks == [] then chain
    else Extend(c, Grown(c, chain, blocks[..|blocks| - 1], verifier), blocks[|blocks| - 1], verifier)
  }

  function Genesis(accounts: Accounts, baseFee: int): Chain {
    Chain(accounts, baseFee, 0, 0, 0, [])
  }

  /** Nobody creates or destroys money on a chain on which nobody pays itself. */
  lemma {:induction false} ChainConserves(c: Config, accounts: Accounts, baseFee: int, blocks: seq<seq<Tx>>,
                                          verifier: Tx -> bool)
    requires c.Valid()
    ensures var chain := Grown(c, Genesis(accounts, baseFee), blocks, verifier);
            && Supply(chain.accounts) + chain.burned + chain.tips >= Supply(accounts)
            && (Supply(chain.accounts) + chain.burned + chain.tips == Supply(accounts)
                <==> forall i | 0 <= i < |chain.executed| :: !PaysItself(chain.executed[i]))
  {
    if blocks != [] {
      var (rest, last) := (blocks[..|blocks| - 1], blocks[|blocks| - 1]);
      ChainConserves(c, accounts, baseFee, rest, verifier);
      var before := Grown(c, Genesis(accounts, baseFee), rest, verifier);
      if Grows(c, before, last, verifier) {
        ConservedIff(c, before.baseFee, before.gasUsed, before.accounts, last, verifier);
        AllOfSum(before.executed, last);
      }
    }
  }

  lemma AllOfSum(a: seq<Tx>, b: seq<Tx>)
    ensures (forall i | 0 <= i < |a + b| :: !PaysItself((a + b)[i]))
       <==> (forall i | 0 <= i < |a| :: !PaysItself(a[i])) && (forall i | 0 <= i < |b| :: !PaysItself(b[i]))
  {
    var all := a + b;
    assert forall i | 0 <= i < |a| :: all[i] == a[i];
    assert forall i | 0 <= i < |b| :: all[|a| + i] == b[i];
  }

  /** Nonces over a whole chain: every account's nonce, and the nonce each transaction had. */
  ghost predicate NonceLedger(accounts: Accounts, chain: Chain) {
    && (forall a :: AccountOf(chain.accounts, a).nonce == AccountOf(accounts, a).nonce + BumpsOf(chain.executed, a))
    && NoncesInTurn(accounts, chain.executed)
  }

  ghost predicate NoncesInTurn(accounts: Accounts, txs: seq<Tx>) {
    forall i | 0 <= i < |txs| :: txs[i].nonce ==
      AccountOf(accounts, txs[i].sender).nonce + BumpsOf(txs[..i], txs[i].sender)
  }

  lemma {:induction false} BumpsOfSum(a: seq<Tx>, b: seq<Tx>, address: string)
    ensures BumpsOf(a + b, address) == BumpsOf(a, address) + BumpsOf(b, address)
    decreases |b|
  {
    if b == [] {
      assert a + b == a;
    } else {
      BumpsOfSum(a, b[..|b| - 1], address);
      assert (a + b)[..|a + b| - 1] == a + b[..|b| - 1];
    }
  }

  lemma TurnsContinue(c: Config, accounts: Accounts, now: Accounts, done: seq<Tx>, txs: seq<Tx>, baseFee: int,
                      verifier: Tx -> bool)
    requires NoncesInTurn(accounts, done) && Executable(c, now, txs, baseFee, verifier)
    requires forall a :: AccountOf(now, a).nonce == AccountOf(accounts, a).nonce + BumpsOf(done, a)
    ensures NoncesInTurn(accounts, done + txs)
  {
    var (n, all) := (|done|, done + txs);
    forall i | 0 <= i < |all|
      ensures all[i].nonce == AccountOf(accounts, all[i].sender).nonce + BumpsOf(all[..i], all[i].sender)
    {
      if i < n {
        assert all[i] == done[i] && all[..i] == done[..i];
      } else {
        assert ExecutableAt(c, now, txs[..i - n], txs[i - n], baseFee, verifier);
        assert all[i] == txs[i - n] && all[..i] == done + txs[..i - n];
        BumpsOfSum(done, txs[..i - n], all[i].sender);
      }
    }
  }

  lemma BlockNonces(c: Config, accounts: Accounts, chain: Chain, txs: seq<Tx>, verifier: Tx -> bool)
    requires c.Valid() && NonceLedger(accounts, chain) && Grows(c, chain, txs, verifier)
    ensures NonceLedger(accounts, Extend(c, chain, txs, verifier))
  {
    var baseFee := NextBaseFee(c, chain.baseFee, chain.gasUsed).value;
    var next := Extend(c, chain, txs, verifier);
    ExecutesIff(c, chain.accounts, txs, baseFee, verifier);
    TurnsContinue(c, accounts, chain.accounts, chain.executed, txs, baseFee, verifier);
    var s := Execute(c, chain.accounts, txs, baseFee, verifier).value;
    assert next.accounts == s.accounts && next.executed == chain.executed + txs;
    forall a
      ensures AccountOf(next.accounts, a).nonce == AccountOf(accounts, a).nonce + BumpsOf(next.executed, a)
    {
      BumpsOfSum(chain.executed, txs, a);
      assert AccountOf(s.accounts, a).nonce == AccountOf(chain.accounts, a).nonce + BumpsOf(txs, a);
    }
  }

  lemma {:induction false} ChainNonces(c: Config, accounts: Accounts, baseFee: int, blocks: seq<seq<Tx>>,
                                       verifier: Tx -> bool)
    requires c.Valid()
    ensures NonceLedger(accounts, Grown(c, Genesis(accounts, baseFee), blocks, verifier))
  {
    if blocks != [] {
      var (rest, last) := (blocks[..|blocks| - 1], blocks[|blocks| - 1]);
      ChainNonces(c, accounts, baseFee, rest, verifier);
      var before := Grown(c, Genesis(accounts, baseFee), rest, verifier);
      if Grows(c, before, last, verifier) { BlockNonces(c, accounts, before, last, verifier); }
    }
  }

  lemma NoncesRise(accounts: Accounts, txs: seq<Tx>, i: nat, j: nat)
    requires NoncesInTurn(accounts, txs)
    requires i < j < |txs| && !PaysItself(txs[i]) && txs[i].sender == txs[j].sender
    ensures txs[i].nonce < txs[j].nonce
  {
    var a := txs[i].sender;
    BumpsOfSum(txs[..i + 1], txs[i + 1..j], a);
    assert txs[..j] == txs[..i + 1] + txs[i + 1..j];
    assert txs[..i + 1][..i] == txs[..i];
  }

  /** On any chain, a transaction that does not pay its own sender runs at most once, and its
      sender's later transactions have higher nonces. */
  lemma RunsAtMostOnce(c: Config, accounts: Accounts, baseFee: int, blocks: seq<seq<Tx>>, verifier: Tx -> bool)
    requires c.Valid()
    ensures var executed := Grown(c, Genesis(accounts, baseFee), blocks, verifier).executed;
            forall i, j | 0 <= i < j < |executed| && !PaysItself(executed[i]) &&
              executed[i].sender == executed[j].sender ::
              executed[i].nonce < executed[j].nonce
  {
    ChainNonces(c, accounts, baseFee, blocks, verifier);
    var executed := Grown(c, Genesis(accounts, baseFee), blocks, verifier).executed;
    forall i, j | 0 <= i < j < |executed| && !PaysItself(executed[i]) && executed[i].sender == executed[j].sender
      ensures executed[i].nonce < executed[j].nonce
    {
      NoncesRise(accounts, executed, i, j);
    }
  }

  lemma {:induction false} NoBumpsIff(txs: seq<Tx>, a: string)
    ensures BumpsOf(txs, a) == 0 <==> forall i | 0 <= i < |txs| && txs[i].sender == a :: PaysItself(txs[i])
  {
    if txs != [] { NoBumpsIff(txs[..|txs| - 1], a); }
  }

  lemma AtMostProduct(n: nat, g: int)
    requires 0 < g
    ensures g <= n * g + g
  {
  }

  /** Nothing since, itself included, has used up the sender's nonce. */
  ghost predicate NonceUnused(txs: seq<Tx>, i: nat)
    requires i < |txs|
  {
    forall j | 0 <= j < |txs[i..]| && txs[i..][j].sender == txs[i].sender :: PaysItself(txs[i..][j])
  }

  lemma NonceAfter(txs: seq<Tx>, i: nat, before: int, after: int)
    requires i < |txs| && after == before + BumpsOf(txs, txs[i].sender)
    requires txs[i].nonce == before + BumpsOf(txs[..i], txs[i].sender)
    ensures txs[i].nonce == after <==> NonceUnused(txs, i)
  {
    var a := txs[i].sender;
    assert txs == txs[..i] + txs[i..];
    BumpsOfSum(txs[..i], txs[i..], a);
    NoBumpsIff(txs[i..], a);
  }

  lemma NonceStillNext(c: Config, accounts: Accounts, txs: seq<Tx>, i: nat, baseFee: int, verifier: Tx -> bool,
                       s: Progress)
    requires i < |txs| && Ledger(c, accounts, txs, baseFee, s)
    requires ExecutableAt(c, accounts, txs[..i], txs[i], baseFee, verifier)
    ensures txs[i].nonce == AccountOf(s.accounts, txs[i].sender).nonce <==> NonceUnused(txs, i)
  {
    var a := txs[i].sender;
    NonceAfter(txs, i, AccountOf(accounts, a).nonce, AccountOf(s.accounts, a).nonce);
  }

  /** A transaction that ran in a block can run again at the next base fee exactly when it is
      still sound at that fee, its sender still covers it, and from it on its sender has only
      paid itself. */
  lemma RunsAgainIff(c: Config, accounts: Accounts, txs: seq<Tx>, i: nat, baseFee: int, nextFee: int,
                     verifier: Tx -> bool)
    requires c.Valid() && Execute(c, accounts, txs, baseFee, verifier).Ok? && i < |txs|
    ensures var after := Execute(c, accounts, txs, baseFee, verifier).value.accounts;
            Execute(c, after, [txs[i]], nextFee, verifier).Ok? <==>
              && TxError(c, txs[i], nextFee).None?
              && NonceUnused(txs, i)
              && AccountOf(after, txs[i].sender).balance >= Debit(c, txs[i], nextFee)
  {
    var (s, tx) := (Execute(c, accounts, txs, baseFee, verifier).value, txs[i]);
    ExecutesIff(c, accounts, txs, baseFee, verifier);
    assert ExecutableAt(c, accounts, txs[..i], tx, baseFee, verifier);
    NonceStillNext(c, accounts, txs, i, baseFee, verifier, s);
    AtMostProduct(i, c.intrinsicGas);
    ExecutesIff(c, s.accounts, [tx], nextFee, verifier);
    OneIsExecutableIff(c, s.accounts, tx, nextFee, verifier);
  }

  lemma OneIsExecutableIff(c: Config, accounts: Accounts, tx: Tx, baseFee: int, verifier: Tx -> bool)
    ensures Executable(c, accounts, [tx], baseFee, verifier) <==> ExecutableAt(c, accounts, [], tx, baseFee, verifier)
  {
    assert [tx][..0] == [] && [tx][0] == tx;
  }

  /** Alone in its block and at an unchanged base fee, exactly a payment to oneself runs again. */
  lemma LoneRunsAgainIff(c: Config, accounts: Accounts, tx: Tx, baseFee: int, verifier: Tx -> bool)
    requires c.Valid() && Execute(c, accounts, [tx], baseFee, verifier).Ok?
    ensures var s := Execute(c, accounts, [tx], baseFee, verifier).value;
            Execute(c, s.accounts, [tx], baseFee, verifier).Ok? <==> PaysItself(tx)
  {
    RunsAgainIff(c, accounts, [tx], 0, baseFee, baseFee, verifier);
    assert [tx][..0] == [] && [tx][0..] == [tx];
    assert Execute(c, accounts, [tx], baseFee, verifier) == Apply(c, Begin(accounts), tx, baseFee, verifier(tx));
    TransferMoves(accounts, tx, Debit(c, tx, baseFee), tx.sender);
  }
}
