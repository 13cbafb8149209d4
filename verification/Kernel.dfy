/** Block execution: fees, nonces and where the money goes. */
module Kernel {
  import opened Ordering
  import opened Prelude
  import opened Protocol
  import opened Weights

  datatype KernelError =
    | InvalidParent
    | ChainMismatch
    | InvalidAddress
    | NegativeField
    | GasBelowIntrinsic
    | GasAboveBlock
    | FeeBelowBase
    | PriorityAboveFee
    | DataTooLong
    | SignatureMissing
    | DuplicateHash
    | SignatureRejected
    | BlockGasExceeded
    | NonceMismatch
    | InsufficientBalance

  function Abs(x: int): nat {
    if x < 0 then -x else x
  }

  /** The base fee of the next block: up when the parent used more than the target, down when
      it used less, and never below 1. */
  function NextBaseFee(c: Config, parentBaseFee: int, parentGasUsed: int): Result<int, KernelError>
    requires c.Valid()
  {
    if parentBaseFee <= 0 || !(0 <= parentGasUsed <= c.blockGasLimit) then Err(InvalidParent)
    else if parentGasUsed == c.targetGas then Ok(parentBaseFee)
    else
      var delta := parentBaseFee * Abs(parentGasUsed - c.targetGas) / c.targetGas / c.baseFeeDenominator;
      if parentGasUsed > c.targetGas then Ok(parentBaseFee + if delta < 1 then 1 else delta)
      else Ok(if parentBaseFee - delta < 1 then 1 else parentBaseFee - delta)
  }

  lemma Nonnegative(a: int, b: int, k: int)
    requires 0 <= a && 0 <= b && 0 < k
    ensures 0 <= a * b && 0 <= a / k
  {
  }

  lemma DividedTwice(fee: int, gap: int, target: int, denominator: int)
    requires 0 <= fee && 0 <= gap <= target && 0 < target && 0 < denominator
    ensures 0 <= fee * gap / target / denominator <= fee / denominator
  {
    TimesOrdered(gap, target, fee);
    Nonnegative(fee, gap, target);
    AtMostFactor(fee * gap, fee, target);
    var q := fee * gap / target;
    Nonnegative(q, 1, denominator);
    DivOrdered(q, fee, denominator);
  }

  lemma AtMostFactor(n: int, fee: int, target: int)
    requires 0 <= n <= fee * target && 0 < target
    ensures n / target <= fee
  {
    assert n / target * target <= n;
    if n / target > fee { TimesOrdered(fee + 1, n / target, target); }
  }

  lemma DivOrdered(a: int, b: int, k: int)
    requires a <= b && 0 < k
    ensures a / k <= b / k
  {
    assert a / k * k <= a;
    assert b < b / k * k + k;
    if a / k > b / k { TimesOrdered(b / k + 1, a / k, k); }
  }

  /** The base fee follows usage, stays positive, and when no block can exceed twice the target
      it changes by at most one part in the denominator, or by 1. */
  lemma BaseFeeFollowsUsage(c: Config, parentBaseFee: int, parentGasUsed: int)
    requires c.Valid() && 0 < parentBaseFee && 0 <= parentGasUsed <= c.blockGasLimit
    ensures var next := NextBaseFee(c, parentBaseFee, parentGasUsed);
            && next.Ok? && 1 <= next.value
            && (parentGasUsed > c.targetGas ==> next.value > parentBaseFee)
            && (parentGasUsed == c.targetGas ==> next.value == parentBaseFee)
            && (parentGasUsed < c.targetGas ==> next.value <= parentBaseFee)
            && (c.blockGasLimit <= 2 * c.targetGas ==>
                  Abs(next.value - parentBaseFee) <= 1 ||
                    Abs(next.value - parentBaseFee) <= parentBaseFee / c.baseFeeDenominator)
  {
    var gap := Abs(parentGasUsed - c.targetGas);
    Nonnegative(parentBaseFee, gap, c.targetGas);
    Nonnegative(parentBaseFee * gap, 1, c.targetGas);
    Nonnegative(parentBaseFee * gap / c.targetGas, 1, c.baseFeeDenominator);
    if gap <= c.targetGas {
      DividedTwice(parentBaseFee, gap, c.targetGas, c.baseFeeDenominator);
    }
  }

  predicate IsAddress(s: string) {
    |s| == 42 && s[..2] == "0x" && IsBase16(s[2..])
  }

  function TxError(c: Config, tx: Tx, baseFee: int): Option<KernelError> {
    if tx.chainId != c.chainId then Some(ChainMismatch)
    else if !IsAddress(tx.sender) || !IsAddress(tx.recipient) then Some(InvalidAddress)
    else if tx.nonce < 0 || tx.value < 0 || tx.gasLimit < 0 || tx.maxFee < 0 || tx.maxPriorityFee < 0 then
      Some(NegativeField)
    else if tx.gasLimit < c.intrinsicGas then Some(GasBelowIntrinsic)
    else if tx.gasLimit > c.blockGasLimit then Some(GasAboveBlock)
    else if tx.maxFee < baseFee then Some(FeeBelowBase)
    else if tx.maxPriorityFee > tx.maxFee then Some(PriorityAboveFee)
    else if |tx.data| > c.maxDataBytes then Some(DataTooLong)
    else if tx.signature == [] then Some(SignatureMissing)
    else None
  }

  function PriorityFee(tx: Tx, baseFee: int): int {
    if tx.maxPriorityFee < tx.maxFee - baseFee then tx.maxPriorityFee else tx.maxFee - baseFee
  }

  function Fee(c: Config, tx: Tx, baseFee: int): int {
    c.intrinsicGas * (baseFee + PriorityFee(tx, baseFee))
  }

  datatype Receipt = Receipt(
    hash: string,
    index: nat,
    sender: string,
    recipient: string,
    gasUsed: int,
    effectivePrice: int,
    burned: int,
    tip: int)

  function ReceiptOf(c: Config, tx: Tx, index: nat, baseFee: int): Receipt {
    var priority := PriorityFee(tx, baseFee);
    Receipt(c.hashOf(tx), index, tx.sender, tx.recipient, c.intrinsicGas, baseFee + priority,
            c.intrinsicGas * baseFee, c.intrinsicGas * priority)
  }

  /** Where a block stands between two transactions. */
  datatype Progress = Progress(
    accounts: Accounts,
    seen: set<string>,
    gasUsed: int,
    burned: int,
    tips: int,
    receipts: seq<Receipt>)

  function ApplyError(c: Config, s: Progress, tx: Tx, baseFee: int, verified: bool): Option<KernelError> {
    if TxError(c, tx, baseFee).Some? then TxError(c, tx, baseFee)
    else if c.hashOf(tx) in s.seen then Some(DuplicateHash)
    else if !verified then Some(SignatureRejected)
    else if s.gasUsed + c.intrinsicGas > c.blockGasLimit then Some(BlockGasExceeded)
    else if tx.nonce != AccountOf(s.accounts, tx.sender).nonce then Some(NonceMismatch)
    else if AccountOf(s.accounts, tx.sender).balance < tx.value + Fee(c, tx, baseFee) then Some(InsufficientBalance)
    else None
  }

  /** The accounts after a transfer. Both accounts are read before either is written, so when
      a sender pays itself the credit overwrites the debit. */
  function Transfer(accounts: Accounts, tx: Tx, debit: int): Accounts
    requires 0 <= tx.value && debit <= AccountOf(accounts, tx.sender).balance
  {
    var (sender, recipient) := (AccountOf(accounts, tx.sender), AccountOf(accounts, tx.recipient));
    accounts[tx.sender := Account(sender.balance - debit, sender.nonce + 1)]
            [tx.recipient := Account(recipient.balance + tx.value, recipient.nonce)]
  }

  function Debit(c: Config, tx: Tx, baseFee: int): int {
    tx.value + Fee(c, tx, baseFee)
  }

  function Apply(c: Config, s: Progress, tx: Tx, baseFee: int, verified: bool): Result<Progress, KernelError> {
    var error := ApplyError(c, s, tx, baseFee, verified);
    if error.Some? then Err(error.value)
    else
      Ok(Progress(
        Transfer(s.accounts, tx, Debit(c, tx, baseFee)),
        s.seen + {c.hashOf(tx)},
        s.gasUsed + c.intrinsicGas,
        s.burned + c.intrinsicGas * baseFee,
        s.tips + c.intrinsicGas * PriorityFee(tx, baseFee),
        s.receipts + [ReceiptOf(c, tx, |s.receipts|, baseFee)]))
  }

  function Begin(accounts: Accounts): Progress {
    Progress(accounts, {}, 0, 0, 0, [])
  }

  /** All the transactions of a block in order; the first refusal refuses the block. */
  function Execute(c: Config, accounts: Accounts, txs: seq<Tx>, baseFee: int, verifier: Tx -> bool)
    : Result<Progress, KernelError>
  {
    if txs == [] then Ok(Begin(accounts))
    else
      var (rest, last) := (txs[..|txs| - 1], txs[|txs| - 1]);
      match Execute(c, accounts, rest, baseFee, verifier)
      case Err(e) => Err(e)
      case Ok(s) => Apply(c, s, last, baseFee, verifier(last))
  }

  /** The digest of the accounts in address order. */
  datatype StateRoot = StateRoot(accounts: seq<(string, Account)>)

  function StateRootOf(accounts: Accounts): StateRoot {
    SortNamesMembers(accounts.Keys);
    StateRoot(Entries(accounts, SortNames(accounts.Keys)))
  }

  function Entries(accounts: Accounts, names: seq<string>): (r: seq<(string, Account)>)
    requires forall i | 0 <= i < |names| :: names[i] in accounts
    ensures |r| == |names| && forall i | 0 <= i < |r| :: r[i] == (names[i], accounts[names[i]])
  {
    if names == [] then []
    else
      var n := |names| - 1;
      Entries(accounts, names[..n]) + [(names[n], accounts[names[n]])]
  }

  /** What the root commits to: the same root means the same accounts. */
  lemma StateRootCommits(a: Accounts, b: Accounts)
    ensures StateRootOf(a) == StateRootOf(b) <==> a == b
  {
    SortNamesMembers(a.Keys);
    SortNamesMembers(b.Keys);
    if StateRootOf(a) == StateRootOf(b) {
      RootCovers(a, b);
      RootCovers(b, a);
    }
  }

  lemma RootCovers(a: Accounts, b: Accounts)
    requires StateRootOf(a) == StateRootOf(b)
    ensures forall x | x in a :: x in b && a[x] == b[x]
  {
    SortNamesMembers(a.Keys);
    SortNamesMembers(b.Keys);
    var (names, names') := (SortNames(a.Keys), SortNames(b.Keys));
    var (entries, entries') := (Entries(a, names), Entries(b, names'));
    forall x | x in a
      ensures x in b && a[x] == b[x]
    {
      assert x in names;
      var i :| 0 <= i < |names| && names[i] == x;
      assert entries[i] == (x, a[x]) && entries'[i] == (names'[i], b[names'[i]]);
    }
  }

  datatype Block = Block(
    chainId: int,
    baseFee: int,
    gasUsed: int,
    burned: int,
    tips: int,
    stateRoot: StateRoot,
    accounts: Accounts,
    receipts: seq<Receipt>)

  function BlockOf(c: Config, parentBaseFee: int, parentGasUsed: int, accounts: Accounts, txs: seq<Tx>,
                   verifier: Tx -> bool): Result<Block, KernelError>
    requires c.Valid()
  {
    if exists a | a in accounts :: !IsAddress(a) then Err(InvalidAddress)
    else
      match NextBaseFee(c, parentBaseFee, parentGasUsed)
      case Err(e) => Err(e)
      case Ok(baseFee) =>
        match Execute(c, accounts, txs, baseFee, verifier)
        case Err(e) => Err(e)
        case Ok(s) => Ok(Block(c.chainId, baseFee, s.gasUsed, s.burned, s.tips, StateRootOf(s.accounts), s.accounts,
                               s.receipts))
  }

  method ExecuteBlock(c: Config, parentBaseFee: int, parentGasUsed: int, accounts: Accounts, txs: seq<Tx>,
                      verifier: Tx -> bool) returns (r: Result<Block, KernelError>)
    requires c.Valid()
    ensures r == BlockOf(c, parentBaseFee, parentGasUsed, accounts, txs, verifier)
  {
    if exists a | a in accounts :: !IsAddress(a) { return Err(InvalidAddress); }
    var fee := NextBaseFee(c, parentBaseFee, parentGasUsed);
    if fee.Err? { return Err(fee.error); }
    var run := ExecuteTransactions(c, accounts, txs, fee.value, verifier);
    if run.Err? { return Err(run.error); }
    var (baseFee, s) := (fee.value, run.value);
    return Ok(Block(c.chainId, baseFee, s.gasUsed, s.burned, s.tips, StateRootOf(s.accounts), s.accounts, s.receipts));
  }

  /** The transactions one by one on a copy of the accounts. */
  method ExecuteTransactions(c: Config, accounts: Accounts, txs: seq<Tx>, baseFee: int, verifier: Tx -> bool)
    returns (r: Result<Progress, KernelError>)
    ensures r == Execute(c, accounts, txs, baseFee, verifier)
  {
    var s := Begin(accounts);
    for i := 0 to |txs|
      invariant Execute(c, accounts, txs[..i], baseFee, verifier) == Ok(s)
    {
      ExecuteNext(c, accounts, txs, i, s, baseFee, verifier);
      var next := ExecuteTransaction(c, s, txs[i], baseFee, verifier);
      if next.Err? { return Err(next.error); }
      s := next.value;
    }
    assert txs[..|txs|] == txs;
    return Ok(s);
  }

  /** One turn of the loop: the checks in their order, the transfer, and the receipt. */
  method ExecuteTransaction(c: Config, s: Progress, tx: Tx, baseFee: int, verifier: Tx -> bool)
    returns (r: Result<Progress, KernelError>)
    ensures r == Apply(c, s, tx, baseFee, verifier(tx))
  {
    var error := TxError(c, tx, baseFee);
    if error.Some? { return Err(error.value); }
    if c.hashOf(tx) in s.seen { return Err(DuplicateHash); }
    if !verifier(tx) { return Err(SignatureRejected); }
    if s.gasUsed + c.intrinsicGas > c.blockGasLimit { return Err(BlockGasExceeded); }
    var sender := AccountOf(s.accounts, tx.sender);
    if tx.nonce != sender.nonce { return Err(NonceMismatch); }
    var priority := PriorityFee(tx, baseFee);
    var debit := tx.value + c.intrinsicGas * (baseFee + priority);
    if sender.balance < debit { return Err(InsufficientBalance); }
    var recipient := AccountOf(s.accounts, tx.recipient);
    var state := s.accounts;
    state := state[tx.sender := Account(sender.balance - debit, sender.nonce + 1)];
    state := state[tx.recipient := Account(recipient.balance + tx.value, recipient.nonce)];
    var (burned, tip) := (c.intrinsicGas * baseFee, c.intrinsicGas * priority);
    var receipt := Receipt(c.hashOf(tx), |s.receipts|, tx.sender, tx.recipient, c.intrinsicGas, baseFee + priority,
                           burned, tip);
    return Ok(Progress(state, s.seen + {c.hashOf(tx)}, s.gasUsed + c.intrinsicGas, s.burned + burned, s.tips + tip,
                       s.receipts + [receipt]));
  }

  lemma {:induction false} RefusalStays(c: Config, accounts: Accounts, txs: seq<Tx>, n: nat, baseFee: int,
                                        verifier: Tx -> bool)
    requires n <= |txs| && Execute(c, accounts, txs[..n], baseFee, verifier).Err?
    ensures Execute(c, accounts, txs, baseFee, verifier) == Execute(c, accounts, txs[..n], baseFee, verifier)
  {
    if n == |txs| {
      assert txs[..n] == txs;
    } else {
      assert txs[..|txs| - 1][..n] == txs[..n];
      RefusalStays(c, accounts, txs[..|txs| - 1], n, baseFee, verifier);
    }
  }

  /** What the next transaction makes of a block so far. */
  lemma ExecuteNext(c: Config, accounts: Accounts, txs: seq<Tx>, i: nat, s: Progress, baseFee: int,
                    verifier: Tx -> bool)
    requires i < |txs| && Execute(c, accounts, txs[..i], baseFee, verifier) == Ok(s)
    ensures var r := Apply(c, s, txs[i], baseFee, verifier(txs[i]));
            && Execute(c, accounts, txs[..i + 1], baseFee, verifier) == r
            && (r.Err? ==> Execute(c, accounts, txs, baseFee, verifier) == Err(r.error))
  {
    assert txs[..i + 1][..i] == txs[..i];
    if Apply(c, s, txs[i], baseFee, verifier(txs[i])).Err? { RefusalStays(c, accounts, txs, i + 1, baseFee, verifier); }
  }

  // ------------------------------------------------- what a block does, by account

  predicate PaysItself(tx: Tx) {
    tx.sender == tx.recipient
  }

  /** What a transaction adds to one account's balance and nonce. */
  function Net(c: Config, tx: Tx, baseFee: int, a: string): int {
    if tx.recipient == a then tx.value else if tx.sender == a then -Debit(c, tx, baseFee) else 0
  }

  function NetOf(c: Config, txs: seq<Tx>, baseFee: int, a: string): int {
    if txs == [] then 0 else NetOf(c, txs[..|txs| - 1], baseFee, a) + Net(c, txs[|txs| - 1], baseFee, a)
  }

  function Bump(tx: Tx, a: string): nat {
    if tx.sender == a && !PaysItself(tx) then 1 else 0
  }

  function BumpsOf(txs: seq<Tx>, a: string): nat {
    if txs == [] then 0 else BumpsOf(txs[..|txs| - 1], a) + Bump(txs[|txs| - 1], a)
  }

  /** The block may run: every transaction is sound, new, verified, within the gas limit, next
      in its sender's nonces and covered, counting what the earlier ones moved. */
  ghost predicate Executable(c: Config, accounts: Accounts, txs: seq<Tx>, baseFee: int, verifier: Tx -> bool) {
    forall i | 0 <= i < |txs| :: ExecutableAt(c, accounts, txs[..i], txs[i], baseFee, verifier)
  }

  ghost predicate ExecutableAt(c: Config, accounts: Accounts, earlier: seq<Tx>, tx: Tx, baseFee: int,
                               verifier: Tx -> bool)
  {
    && TxError(c, tx, baseFee).None?
    && (forall j | 0 <= j < |earlier| :: c.hashOf(earlier[j]) != c.hashOf(tx))
    && verifier(tx)
    && |earlier| * c.intrinsicGas + c.intrinsicGas <= c.blockGasLimit
    && tx.nonce == AccountOf(accounts, tx.sender).nonce + BumpsOf(earlier, tx.sender)
    && AccountOf(accounts, tx.sender).balance + NetOf(c, earlier, baseFee, tx.sender) >= Debit(c, tx, baseFee)
  }

  ghost function HashSet(c: Config, txs: seq<Tx>): set<string> {
    set i | 0 <= i < |txs| :: c.hashOf(txs[i])
  }

  /** The ledger: what the state is after a block, told account by account without running it. */
  ghost predicate Ledger(c: Config, accounts: Accounts, txs: seq<Tx>, baseFee: int, s: Progress) {
    && (forall a :: AccountOf(s.accounts, a).balance == AccountOf(accounts, a).balance + NetOf(c, txs, baseFee, a))
    && (forall a :: AccountOf(s.accounts, a).nonce == AccountOf(accounts, a).nonce + BumpsOf(txs, a))
    && s.seen == HashSet(c, txs)
    && s.gasUsed == |txs| * c.intrinsicGas
    && s.burned == s.gasUsed * baseFee
    && |s.receipts| == |txs| && (forall i | 0 <= i < |txs| :: s.receipts[i] == ReceiptOf(c, txs[i], i, baseFee))
  }

  lemma TransferMoves(accounts: Accounts, tx: Tx, debit: int, a: string)
    requires 0 <= tx.value && debit <= AccountOf(accounts, tx.sender).balance
    ensures var (was, now) := (AccountOf(accounts, a), AccountOf(Transfer(accounts, tx, debit), a));
            && now.balance == was.balance + (if tx.recipient == a then tx.value else if tx.sender == a then -debit
                                             else 0)
            && now.nonce == was.nonce + Bump(tx, a)
  {
  }

  lemma ApplicableIff(c: Config, accounts: Accounts, txs: seq<Tx>, tx: Tx, baseFee: int, verifier: Tx -> bool,
                      s: Progress)
    requires Ledger(c, accounts, txs, baseFee, s)
    ensures ApplyError(c, s, tx, baseFee, verifier(tx)).None? <==> ExecutableAt(c, accounts, txs, tx, baseFee, verifier)
  {
    var a := tx.sender;
    assert AccountOf(s.accounts, a).balance == AccountOf(accounts, a).balance + NetOf(c, txs, baseFee, a);
    assert AccountOf(s.accounts, a).nonce == AccountOf(accounts, a).nonce + BumpsOf(txs, a);
    assert c.hashOf(tx) in s.seen <==> exists j | 0 <= j < |txs| :: c.hashOf(txs[j]) == c.hashOf(tx);
  }

  lemma ApplyFollowsLedger(c: Config, accounts: Accounts, txs: seq<Tx>, tx: Tx, baseFee: int, verified: bool,
                           s: Progress)
    requires Ledger(c, accounts, txs, baseFee, s)
    requires Apply(c, s, tx, baseFee, verified).Ok?
    ensures Ledger(c, accounts, txs + [tx], baseFee, Apply(c, s, tx, baseFee, verified).value)
  {
    var (after, next) := (txs + [tx], Apply(c, s, tx, baseFee, verified).value);
    assert after[..|txs|] == txs && after[|txs|] == tx;
    forall a
      ensures AccountOf(next.accounts, a).balance == AccountOf(accounts, a).balance + NetOf(c, after, baseFee, a)
      ensures AccountOf(next.accounts, a).nonce == AccountOf(accounts, a).nonce + BumpsOf(after, a)
    {
      TransferMoves(s.accounts, tx, Debit(c, tx, baseFee), a);
    }
    HashSetGrows(c, txs, tx);
    OneMoreTimes(|txs|, c.intrinsicGas);
    Distribute(s.gasUsed, c.intrinsicGas, baseFee);
  }

  lemma HashSetGrows(c: Config, txs: seq<Tx>, tx: Tx)
    ensures HashSet(c, txs + [tx]) == HashSet(c, txs) + {c.hashOf(tx)}
  {
    var after := txs + [tx];
    assert after[|txs|] == tx;
    forall i | 0 <= i < |txs|
      ensures c.hashOf(txs[i]) in HashSet(c, after)
    {
      assert after[i] == txs[i];
    }
  }

  lemma Distribute(a: int, b: int, k: int)
    ensures (a + b) * k == a * k + b * k
  {
  }

  lemma ExecutableGrows(c: Config, accounts: Accounts, txs: seq<Tx>, tx: Tx, baseFee: int, verifier: Tx -> bool)
    ensures Executable(c, accounts, txs + [tx], baseFee, verifier)
       <==> Executable(c, accounts, txs, baseFee, verifier) && ExecutableAt(c, accounts, txs, tx, baseFee, verifier)
  {
    var after := txs + [tx];
    assert after[..|txs|] == txs && after[|txs|] == tx;
    assert forall i | 0 <= i < |txs| :: after[..i] == txs[..i] && after[i] == txs[i];
    if Executable(c, accounts, after, baseFee, verifier) {
      assert ExecutableAt(c, accounts, after[..|txs|], after[|txs|], baseFee, verifier);
      forall i | 0 <= i < |txs|
        ensures ExecutableAt(c, accounts, txs[..i], txs[i], baseFee, verifier)
      {
        assert ExecutableAt(c, accounts, after[..i], after[i], baseFee, verifier);
      }
    }
  }

  /** A block executes exactly when the ledger allows it, and then leaves exactly what the
      ledger says. */
  lemma {:induction false} ExecutesIff(c: Config, accounts: Accounts, txs: seq<Tx>, baseFee: int, verifier: Tx -> bool)
    ensures var r := Execute(c, accounts, txs, baseFee, verifier);
            && (r.Ok? <==> Executable(c, accounts, txs, baseFee, verifier))
            && (r.Ok? ==> Ledger(c, accounts, txs, baseFee, r.value))
  {
    if txs != [] {
      var (rest, last) := (txs[..|txs| - 1], txs[|txs| - 1]);
      ExecutesIff(c, accounts, rest, baseFee, verifier);
      assert rest + [last] == txs;
      ExecutableGrows(c, accounts, rest, last, baseFee, verifier);
      var before := Execute(c, accounts, rest, baseFee, verifier);
      if before.Ok? {
        ApplicableIff(c, accounts, rest, last, baseFee, verifier, before.value);
        if Apply(c, before.value, last, baseFee, verifier(last)).Ok? {
          ApplyFollowsLedger(c, accounts, rest, last, baseFee, verifier(last), before.value);
        }
      }
    }
  }

  function ReceiptTotals(receipts: seq<Receipt>): (int, int, int) {
    if receipts == [] then (0, 0, 0)
    else
      var (totals, last) := (ReceiptTotals(receipts[..|receipts| - 1]), receipts[|receipts| - 1]);
      (totals.0 + last.gasUsed, totals.1 + last.burned, totals.2 + last.tip)
  }

  lemma TotalsAppend(receipts: seq<Receipt>, last: Receipt)
    ensures var (before, after) := (ReceiptTotals(receipts), ReceiptTotals(receipts + [last]));
            after == (before.0 + last.gasUsed, before.1 + last.burned, before.2 + last.tip)
  {
    assert (receipts + [last])[..|receipts|] == receipts;
  }

  lemma ApplyAddsReceipt(c: Config, s: Progress, tx: Tx, baseFee: int, verified: bool)
    requires Apply(c, s, tx, baseFee, verified).Ok?
    ensures var (next, last) := (Apply(c, s, tx, baseFee, verified).value, ReceiptOf(c, tx, |s.receipts|, baseFee));
            && next.receipts == s.receipts + [last]
            && (next.gasUsed, next.burned, next.tips) ==
               (s.gasUsed + last.gasUsed, s.burned + last.burned, s.tips + last.tip)
  {
  }

  /** The receipts' gas, burned fees and tips are those of the block so far. */
  predicate AddsUp(s: Progress) {
    ReceiptTotals(s.receipts) == (s.gasUsed, s.burned, s.tips)
  }

  lemma ApplyKeepsSums(c: Config, s: Progress, tx: Tx, baseFee: int, verified: bool)
    requires AddsUp(s) && Apply(c, s, tx, baseFee, verified).Ok?
    ensures AddsUp(Apply(c, s, tx, baseFee, verified).value)
  {
    ApplyAddsReceipt(c, s, tx, baseFee, verified);
    TotalsAppend(s.receipts, ReceiptOf(c, tx, |s.receipts|, baseFee));
  }

  /** The receipts account for all the gas, all that was burned and all the tips. */
  lemma {:induction false} ReceiptsAddUp(c: Config, accounts: Accounts, txs: seq<Tx>, baseFee: int,
                                         verifier: Tx -> bool)
    requires Execute(c, accounts, txs, baseFee, verifier).Ok?
    ensures AddsUp(Execute(c, accounts, txs, baseFee, verifier).value)
  {
    if txs != [] {
      var (rest, last) := (txs[..|txs| - 1], txs[|txs| - 1]);
      ReceiptsAddUp(c, accounts, rest, baseFee, verifier);
      ApplyKeepsSums(c, Execute(c, accounts, rest, baseFee, verifier).value, last, baseFee, verifier(last));
    }
  }
}
