/** Transactions, accounts and protocol parameters. */
module Protocol {
  import opened Prelude

  /** A transaction; addresses are canonical lower case. */
  datatype Tx = Tx(
    chainId: int,
    sender: string,
    recipient: string,
    nonce: int,
    value: int,
    gasLimit: int,
    maxFee: int,
    maxPriorityFee: int,
    data: Bytes,
    signature: Bytes)

  /** The protocol parameters, with the transaction hash as an uninterpreted function. */
  datatype Config = Config(
    chainId: int,
    blockGasLimit: int,
    targetGas: int,
    baseFeeDenominator: int,
    intrinsicGas: int,
    maxDataBytes: int,
    hashOf: Tx -> string)
  {
    predicate Valid() {
      && 0 < chainId && 0 < targetGas <= blockGasLimit
      && 0 < baseFeeDenominator && 0 < intrinsicGas && 0 < maxDataBytes
    }
  }

  datatype Account = Account(balance: nat, nonce: nat)

  type Accounts = map<string, Account>

  function AccountOf(accounts: Accounts, address: string): Account {
    if address in accounts then accounts[address] else Account(0, 0)
  }
}
