# Transaction ledger: a verified model

This project models the core of a small payments engine written in Rust. The engine
reads a stream of transaction records: deposits, withdrawals, disputes, resolutions
and chargebacks. Each record is addressed to a numbered client. The engine keeps one
account per client with an `available` and a `held` balance and a one-way `locked`
latch. The total is never stored; it is always `available + held`.

Each account also keeps two maps:
- `txns`: the history of accepted deposits and withdrawals, keyed by tx id.
- `disputes`: the open disputes, keyed by tx id.

Every invalid record is dropped silently:
- a duplicate tx id;
- a zero amount;
- a dispute of an unknown tx or of a withdrawal;
- a resolve or chargeback with no open dispute;
- any record for a locked account;
- any record other than a Deposit for a client with no account.

The model has four modules:

- `Transactions` (transaction.dfy) holds the record types. Client ids fit in 16 bits
  and tx ids in 32 bits. Amounts are integers in units of 1/10000.
- `Accounts` (accounts.dfy) holds one client's state as a value, `Account`. Each of
  the five transaction kinds is a transition function on it, and `Apply` is the
  dispatcher. It also holds the account invariant `Valid` and the lemmas about
  sequences of records (`Run`).
- `Ledger` (ledger.dfy) holds the bank as a value: a map from client id to
  `Account`. It has the router `InsertTxn`, the fold `Run` over a feed, and the
  snapshot `Rows`, one row `(client, available, held, total, locked)` per client.
- `Bank` (bank.dfy) holds the imperative form the source takes. `Client` is a class
  whose methods update its fields in place. `Bank` is a class owning a
  `map<ClientId, Client>`. Every method's postcondition says that its new abstract
  state (`State()` or `Snapshot()`) is the matching `Accounts`/`Ledger` function
  applied to the old state. The properties proved about those functions therefore
  hold of the objects.

Where the design description and the code differ, the model follows the code:

- **When an account is created.** The design says an account exists if and only if a
  Deposit for that client was *accepted*. The code opens the account on the first
  Deposit *record* before checking it. So a zero-amount first deposit opens an empty
  account that will appear in the output (`Ledger.ZeroDepositOpensAccount`).
- **Scope of tx-id uniqueness.** The design says tx ids are unique across all
  clients. The code checks for duplicates only in the receiving client's history, so
  two clients may each accept the same tx id (`Ledger.TxIdsArePerClient`).
- **Re-disputes.** A second Dispute of an already-disputed deposit is not rejected. It
  moves the amount from available to held a second time. One Resolve then closes the
  dispute and leaves one copy of the amount held with no open dispute
  (`Accounts.RedisputeStrandsHeldFunds`). The model keeps this as written.

## Model

| member | source | states |
|---|---|---|
| `Accounts.Open` | src/bank.rs:87-96 | a new account is unlocked, has zero balances and empty maps, and satisfies the account invariant |
| `Accounts.ApplyWithdrawal` | src/bank.rs:117-125 | rejected (unchanged) exactly when the tx id is already in the history or the amount is zero. Otherwise available falls by the amount with no lower bound and the record is stored under its id. Total falls by the amount. Held, lock and disputes are untouched. The invariant is kept. |
| `Accounts.ApplyDeposit` | src/bank.rs:127-135 | rejected exactly when the tx id is already in the history or the amount is zero. Otherwise available rises by exactly the amount and the record is stored. Held, lock and disputes are untouched. The invariant is kept. |
| `Accounts.ApplyDispute` | src/bank.rs:137-149 | a no-op unless the tx id names a stored Deposit. Otherwise that record enters the open disputes and held rises by its amount. Total, history and lock are unchanged. The disputes-within-history invariant is kept. |
| `Accounts.ApplyResolve` | src/bank.rs:151-158 | a no-op unless a dispute of the tx is open. Otherwise the dispute is removed and held falls by its amount. Total, history and lock are unchanged. The invariant is kept. |
| `Accounts.ApplyChargeback` | src/bank.rs:160-167 | a no-op unless a dispute of the tx is open. Otherwise the account locks, the dispute is removed, available is untouched, and the total falls by the disputed amount. The invariant is kept. |
| `Accounts.Apply` | src/bank.rs:102-113 | a locked account is returned unchanged. The result is locked iff the account was locked or the record is a chargeback of an open dispute. Stored records are never altered, and only the record itself can be added. The invariant and client ownership are kept. |
| `Accounts.Run` | src/bank.rs:102-113 | over any feed: the lock is never released, history only grows, and the invariant is kept |
| `Accounts.RunAppend` | src/bank.rs:102-113 | processing two batches in turn equals processing their concatenation |
| `Accounts.LockedIgnoresAll` | src/bank.rs:102-113 | a locked account is unchanged by any feed |
| `Accounts.LockIsFinal` | src/bank.rs:102-113 | once a prefix of the feed locks the account, the rest of the feed changes nothing |
| `Accounts.DisputeResolveRestores` | src/bank.rs:137-158 | disputing a deposit that has no open dispute and then resolving it restores the account exactly |
| `Accounts.DepositDisputeResolve` | src/bank.rs:127-158 | Deposit, Dispute, Resolve leaves the balances the deposit alone produced (available up by the amount, held unchanged) |
| `Accounts.DisputeChargeback` | src/bank.rs:137-167 | dispute then chargeback of a deposit locks the account, removes the amount from available, and leaves held and disputes as before |
| `Accounts.DepositDisputeChargeback` | src/bank.rs:102-167 | Deposit, Dispute, Chargeback then any further records: locked, available and held back to their starting values, the deposit still in the history |
| `Accounts.ResolveIdempotent` | src/bank.rs:151-158 | a second Resolve of the same tx has no effect |
| `Accounts.DuplicateIgnored` | src/bank.rs:117-135 | a deposit or withdrawal reusing an accepted tx id is ignored |
| `Accounts.RedisputeStrandsHeldFunds` | src/bank.rs:137-158 | dispute, dispute, resolve closes the dispute but leaves the amount held once and missing from available |
| `Ledger.AddClient` | src/bank.rs:43-48 | adds exactly the given id. It is idempotent on an existing client, gives a new client a fresh account, leaves other accounts as they were, and keeps the ledger invariant. |
| `Ledger.InsertTxn` | src/bank.rs:52-62 | opens an account only for a Deposit to an unknown client. A non-deposit for an unknown client leaves the ledger unchanged. Every other client's account is untouched, the addressed account takes `Apply`, and the ledger invariant is kept. |
| `Ledger.Run` | src/bank.rs:52-62 | over any feed, no account disappears and the ledger invariant is kept |
| `Ledger.NoDepositNoAccount` | src/bank.rs:52-62 | a client with no account and no Deposit in the feed still has no account afterwards |
| `Ledger.ClientIsolation` | src/bank.rs:52-62 | a known client's final account is its own account run through only the records addressed to it |
| `Ledger.ZeroDepositOpensAccount` | src/bank.rs:53-58 | a zero-amount Deposit for an unknown client opens an empty account |
| `Ledger.TxIdsArePerClient` | src/bank.rs:50-62 | the same tx id deposited to two different open accounts is accepted by both |
| `Ledger.RowOf` | src/bank.rs:98-100 | an account's row shows its client, balances and lock, with total = available + held |
| `Ledger.Rows` | src/bank.rs:64-73 | every known client has a row, every row's total is available + held, and in a valid ledger every row is that of a known client |
| `Bank.Client.constructor` | src/bank.rs:87-96 | the new object's state is the fresh account |
| `Bank.Client.ToRow` | src/bank.rs:98-100 | returns the row of the object's current state |
| `Bank.Client.ProcessTxn` | src/bank.rs:102-113 | the new state is `Apply` of the old state |
| `Bank.Client.Withdrawal` | src/bank.rs:117-125 | the new state is `ApplyWithdrawal` of the old state |
| `Bank.Client.Deposit` | src/bank.rs:127-135 | the new state is `ApplyDeposit` of the old state |
| `Bank.Client.Dispute` | src/bank.rs:137-149 | the new state is `ApplyDispute` of the old state |
| `Bank.Client.Resolve` | src/bank.rs:151-158 | the new state is `ApplyResolve` of the old state |
| `Bank.Client.Chargeback` | src/bank.rs:160-167 | the new state is `ApplyChargeback` of the old state |
| `Bank.Bank.constructor` | src/bank.rs:39-41 | an empty bank that satisfies the object invariant |
| `Bank.Bank.AddClient` | src/bank.rs:43-48 | the snapshot becomes `Ledger.AddClient` of the old one. Existing Client objects are kept and a new one is freshly allocated. |
| `Bank.Bank.InsertTxn` | src/bank.rs:52-62 | the snapshot becomes `Ledger.InsertTxn` of the old one. Only the addressed Client object changes, and the object invariant is kept. |
| `Bank.Bank.Report` | src/bank.rs:64-73 | the loop over the clients collects exactly `Ledger.Rows` of the snapshot |

## Left out

- Parsing the input: reading the CSV file, the command line, printing the result and the exit status (src/main.rs). These are I/O.
- Deserialisation: renaming the record fields and treating an empty amount as 0 (src/bank.rs:4-5, 14-31). This is done by a foreign library. Records reach the model already typed, with the amount already defaulted to 0.
- 32-bit floating point. Amounts are exact integers in units of 1/10000. Rounding in `+=`/`-=` and comparing a NaN amount against `0.0` are not modelled.
- Text formatting: the header line, `{:.4}` decimals and the separators (src/bank.rs:64-73, 98-100). The output is modelled as a set of rows. That set has no order, because the source iterates over a `HashMap` in unspecified order.
- Concurrency: the source processes records one at a time on one thread, and so does the model.
