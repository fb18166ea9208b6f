/**
 * The input record of the ledger: one transaction addressed to one client.
 * Deserialisation of the record (field renaming, empty amounts) happens
 * outside this model; a record reaches the ledger already typed, with an
 * absent amount already replaced by 0.
 */
module Transactions {

  /** A client identifier; the source stores it as an unsigned 16-bit integer. */
  type ClientId = x: int | 0 <= x < 0x1_0000

  /** A transaction identifier; the source stores it as an unsigned 32-bit integer. */
  type TxId = x: int | 0 <= x < 0x1_0000_0000

  /**
   * A monetary amount in fixed-point units of 1/10000 (four decimal places,
   * the precision the ledger reports). Negative amounts are not rejected by
   * the ledger, so the type is all of int.
   */
  type Amount = int

  /** The five kinds of transaction. */
  datatype TransactionType = Withdrawal | Deposit | Dispute | Resolve | Chargeback

  /**
   * A transaction record. For Dispute, Resolve and Chargeback the amount is
   * carried but never read: those kinds act on the record stored under `tx`.
   */
  datatype Transaction = Transaction(txType: TransactionType, client: ClientId, tx: TxId, amount: Amount)

  /** The kinds that the ledger stores in a client's history. */
  predicate IsTransfer(t: Transaction)
  {
    t.txType.Deposit? || t.txType.Withdrawal?
  }
}
