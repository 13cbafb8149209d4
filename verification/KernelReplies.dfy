/** The base fee step to the unit, and why transactions and blocks are refused. */
module KernelReplies {
  import opened Kernel
  import opened Prelude
  import opened Protocol

  // ------------------------------------------------------------------ base fee

  /** The step: the parent's base fee times its distance from the target, divided by target and
      denominator and rounded down. */
  ghost predicate IsStep(c: Config, fee: int, gap: int, step: int) {
    var unit := c.targetGas * c.baseFeeDenominator;
    0 <= step && step * unit <= fee * gap < (step + 1) * unit
  }

  lemma QuotientBounds(n: int, k: int)
    requires 0 <= n && 0 < k
    ensures 0 <= n / k && n / k * k <= n && n + 1 <= n / k * k + k
  {
  }

  lemma Associates(a: int, b: int, k: int)
    ensures a * b * k == a * k * b && a * (k * b) == a * b * k
  {
  }

  /** Dividing twice, rounding down each time, is dividing once by the product. */
  lemma DivideTwice(n: int, a: int, b: int)
    requires 0 <= n && 0 < a && 0 < b
    ensures var q := n / a / b; 0 <= q && q * (a * b) <= n < (q + 1) * (a * b)
  {
    var (m, q) := (n / a, n / a / b);
    QuotientBounds(n, a);
    QuotientBounds(m, b);
    TimesOrdered(q * b, m, a);
    TimesOrdered(m + 1, q * b + b, a);
    Associates(q, b, a);
    Associates(q + 1, b, a);
    Sums(q, m, a, b);
  }

  lemma Sums(q: int, m: int, a: int, b: int)
    ensures (m + 1) * a == m * a + a && (q * b + b) * a == (q + 1) * b * a
  {
  }

  /** The next base fee, exactly: as it was at the target; above it up by the step, but at least by 1;
      below it down by the step, but not below 1. Only an invalid parent has none. */
  lemma NextBaseFeeIs(c: Config, fee: int, used: int) returns (step: int)
    requires c.Valid()
    ensures NextBaseFee(c, fee, used).Ok? <==> 0 < fee && 0 <= used <= c.blockGasLimit
    ensures NextBaseFee(c, fee, used).Err? ==> NextBaseFee(c, fee, used).error == InvalidParent
    ensures NextBaseFee(c, fee, used).Ok? ==>
              var next := NextBaseFee(c, fee, used).value;
              && IsStep(c, fee, if used < c.targetGas then c.targetGas - used else used - c.targetGas, step)
              && (used == c.targetGas ==> next == fee)
              && (used > c.targetGas ==> next == fee + (if step == 0 then 1 else step))
              && (used < c.targetGas ==> next == if fee - step >= 1 then fee - step else 1)
  {
    step := 0;
    if 0 < fee && 0 <= used <= c.blockGasLimit {
      var gap := Abs(used - c.targetGas);
      TimesOrdered(0, gap, fee);
      step := fee * gap / c.targetGas / c.baseFeeDenominator;
      DivideTwice(fee * gap, c.targetGas, c.baseFeeDenominator);
      if gap == 0 { ZeroStep(c, fee, step); }
    }
  }

  lemma ZeroStep(c: Config, fee: int, step: int)
    requires c.Valid() && step == fee * 0 / c.targetGas / c.baseFeeDenominator
    ensures step == 0
  {
  }

  // -------------------------------------------------------------- transactions

  /** A transaction that a block at this base fee takes as it stands. */
  ghost predicate SoundTx(c: Config, tx: Tx, baseFee: int) {
    && tx.chainId == c.chainId && IsAddress(tx.sender) && IsAddress(tx.recipient)
    && 0 <= tx.nonce && 0 <= tx.value && 0 <= tx.maxFee && 0 <= tx.maxPriorityFee <= tx.maxFee
    && 0 <= tx.gasLimit && c.intrinsicGas <= tx.gasLimit <= c.blockGasLimit
    && baseFee <= tx.maxFee && |tx.data| <= c.maxDataBytes && tx.signature != []
  }

  lemma SoundTxIff(c: Config, tx: Tx, baseFee: int)
    ensures TxError(c, tx, baseFee).None? <==> SoundTx(c, tx, baseFee)
  {
  }

  /** Each fault of a transaction is reported exactly when it is the first one. */
  lemma TxErrorIff(c: Config, tx: Tx, baseFee: int)
    ensures var error := TxError(c, tx, baseFee);
            var ours := tx.chainId == c.chainId && IsAddress(tx.sender) && IsAddress(tx.recipient);
            var signs := 0 <= tx.nonce && 0 <= tx.value && 0 <= tx.gasLimit && 0 <= tx.maxFee && 0 <= tx.maxPriorityFee;
            var metered := ours && signs && c.intrinsicGas <= tx.gasLimit <= c.blockGasLimit;
            var priced := metered && baseFee <= tx.maxFee && tx.maxPriorityFee <= tx.maxFee;
            && (error == Some(ChainMismatch) <==> tx.chainId != c.chainId)
            && (error == Some(InvalidAddress) <==>
                  tx.chainId == c.chainId && !(IsAddress(tx.sender) && IsAddress(tx.recipient)))
            && (error == Some(NegativeField) <==> ours && !signs)
            && (error == Some(GasBelowIntrinsic) <==> ours && signs && tx.gasLimit < c.intrinsicGas)
            && (error == Some(GasAboveBlock) <==>
                  ours && signs && c.intrinsicGas <= tx.gasLimit && tx.gasLimit > c.blockGasLimit)
            && (error == Some(FeeBelowBase) <==> metered && tx.maxFee < baseFee)
            && (error == Some(PriorityAboveFee) <==> metered && baseFee <= tx.maxFee && tx.maxPriorityFee > tx.maxFee)
            && (error == Some(DataTooLong) <==> priced && |tx.data| > c.maxDataBytes)
            && (error == Some(SignatureMissing) <==> priced && |tx.data| <= c.maxDataBytes && tx.signature == [])
  {
  }

  /** Why a sound transaction does not run where the block stands. */
  lemma ApplyErrorIff(c: Config, s: Progress, tx: Tx, baseFee: int, verified: bool)
    requires SoundTx(c, tx, baseFee)
    ensures var r := Apply(c, s, tx, baseFee, verified);
            var (new', account) := (c.hashOf(tx) !in s.seen && verified, AccountOf(s.accounts, tx.sender));
            var fits := new' && s.gasUsed + c.intrinsicGas <= c.blockGasLimit;
            && (r == Err(DuplicateHash) <==> c.hashOf(tx) in s.seen)
            && (r == Err(SignatureRejected) <==> c.hashOf(tx) !in s.seen && !verified)
            && (r == Err(BlockGasExceeded) <==> new' && s.gasUsed + c.intrinsicGas > c.blockGasLimit)
            && (r == Err(NonceMismatch) <==> fits && tx.nonce != account.nonce)
            && (r == Err(InsufficientBalance) <==>
                  fits && tx.nonce == account.nonce && account.balance < Debit(c, tx, baseFee))
            && (r.Ok? <==> fits && tx.nonce == account.nonce && account.balance >= Debit(c, tx, baseFee))
  {
    SoundTxIff(c, tx, baseFee);
  }

  // -------------------------------------------------------------------- blocks

  /** The transactions before this one run, and it is refused for this reason. */
  ghost predicate RefusedAt(c: Config, accounts: Accounts, txs: seq<Tx>, baseFee: int, verifier: Tx -> bool, n: nat,
                            error: KernelError)
    requires n < |txs|
  {
    && Execute(c, accounts, txs[..n], baseFee, verifier).Ok?
    && Apply(c, Execute(c, accounts, txs[..n], baseFee, verifier).value, txs[n], baseFee, verifier(txs[n])) ==
       Err(error)
  }

  /** A block is refused for the reason of its first transaction that does not run. */
  lemma {:induction false} FirstRefusal(c: Config, accounts: Accounts, txs: seq<Tx>, baseFee: int, verifier: Tx -> bool)
    returns (n: nat)
    requires Execute(c, accounts, txs, baseFee, verifier).Err?
    ensures n < |txs|
    ensures RefusedAt(c, accounts, txs, baseFee, verifier, n, Execute(c, accounts, txs, baseFee, verifier).error)
  {
    var (rest, last) := (txs[..|txs| - 1], txs[|txs| - 1]);
    if Execute(c, accounts, rest, baseFee, verifier).Err? {
      n := FirstRefusal(c, accounts, rest, baseFee, verifier);
      assert txs[..n] == rest[..n] && txs[n] == rest[n];
    } else {
      n := |txs| - 1;
    }
  }

  /** What a block says when it runs, and why it does not: an account that is no address, then the
      parent, then its transactions at the next base fee. */
  lemma BlockIff(c: Config, parentFee: int, parentUsed: int, accounts: Accounts, txs: seq<Tx>, verifier: Tx -> bool)
    requires c.Valid()
    ensures var r := BlockOf(c, parentFee, parentUsed, accounts, txs, verifier);
            if exists a :: a in accounts && !IsAddress(a) then r == Err(InvalidAddress)
            else if parentFee <= 0 || parentUsed < 0 || parentUsed > c.blockGasLimit then r == Err(InvalidParent)
            else
              var baseFee := NextBaseFee(c, parentFee, parentUsed).value;
              var run := Execute(c, accounts, txs, baseFee, verifier);
              if run.Err? then r == Err(run.error)
              else
                && r.Ok? && r.value.chainId == c.chainId && r.value.baseFee == baseFee
                && r.value.accounts == run.value.accounts && r.value.receipts == run.value.receipts
                && (r.value.gasUsed, r.value.burned, r.value.tips) == ReceiptTotals(run.value.receipts)
                && r.value.stateRoot == StateRootOf(run.value.accounts)
  {
    if parentFee > 0 && 0 <= parentUsed <= c.blockGasLimit {
      var baseFee := NextBaseFee(c, parentFee, parentUsed).value;
      if Execute(c, accounts, txs, baseFee, verifier).Ok? { ReceiptsAddUp(c, accounts, txs, baseFee, verifier); }
    }
  }

  // --------------------------------------------------------- parameters, accounts

  /** The parameters are positive, and the target is within the limit. */
  lemma ConfigValidIff(c: Config)
    ensures c.Valid() <==>
              && 1 <= c.chainId && 1 <= c.targetGas && 0 <= c.blockGasLimit - c.targetGas
              && 1 <= c.baseFeeDenominator && 1 <= c.intrinsicGas && 1 <= c.maxDataBytes
  {
  }

  /** An address without an account has neither money nor a first transaction behind it. */
  lemma UnknownHoldsNothing(accounts: Accounts, address: string)
    ensures var a := AccountOf(accounts, address);
            if address in accounts then a == accounts[address] else a.balance == 0 && a.nonce == 0
  {
  }
}
