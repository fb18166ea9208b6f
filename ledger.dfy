/**
 * The bank router as values: a map from client id to that client's account.
 * A record is forwarded to the one account it names; an account is opened
 * only for a Deposit addressed to an unknown client.
 */
module Ledger {
  import opened Transactions
  import Accounts

  type Clients = map<ClientId, Accounts.Account>

  /**
   * The ledger invariant: each account sits under its own client id, keeps
   * the account invariant, and holds only records addressed to that client.
   */
  ghost predicate Valid(m: Clients)
  {
    forall c :: c in m ==> m[c].client == c && Accounts.Valid(m[c]) && Accounts.Owned(m[c])
  }

  /** `add_client`: open an account for `c` unless it already has one. */
  function AddClient(m: Clients, c: ClientId): (r: Clients)
    ensures r.Keys == m.Keys + {c}
    ensures c in m ==> r == m
    ensures c !in m ==> r[c] == Accounts.Open(c)
    ensures forall k :: k in m ==> r[k] == m[k]
    ensures Valid(m) ==> Valid(r)
  {
    if c in m then m else m[c := Accounts.Open(c)]
  }

  /** Whether the ledger opens an account for `t`. */
  predicate Opens(m: Clients, t: Transaction)
  {
    t.client !in m && t.txType.Deposit?
  }

  /**
   * `insert_txn`: a Deposit for an unknown client first opens its account;
   * then, if the client has an account, the record is applied to it.
   */
  function InsertTxn(m: Clients, t: Transaction): (r: Clients)
    ensures r.Keys == if Opens(m, t) then m.Keys + {t.client} else m.Keys
    ensures t.client !in m && !t.txType.Deposit? ==> r == m
    ensures forall c :: c in m && c != t.client ==> r[c] == m[c]
    ensures t.client in m ==> r[t.client] == Accounts.Apply(m[t.client], t)
    ensures Opens(m, t) ==> r[t.client] == Accounts.Apply(Accounts.Open(t.client), t)
    ensures Valid(m) ==> Valid(r)
  {
    var m1 := if t.client !in m && t.txType.Deposit? then AddClient(m, t.client) else m;
    if t.client in m1 then m1[t.client := Accounts.Apply(m1[t.client], t)] else m1
  }

  /** The ledger after inserting the records `ts` one after the other. */
  function Run(m: Clients, ts: seq<Transaction>): (r: Clients)
    ensures m.Keys <= r.Keys
    ensures Valid(m) ==> Valid(r)
    decreases |ts|
  {
    if ts == [] then m else Run(InsertTxn(m, ts[0]), ts[1..])
  }

  /** The records of `ts` addressed to client `c`, in feed order. */
  function For(ts: seq<Transaction>, c: ClientId): (r: seq<Transaction>)
    ensures Accounts.AllFor(r, c)
    ensures |r| <= |ts|
    decreases |ts|
  {
    if ts == [] then []
    else if ts[0].client == c then [ts[0]] + For(ts[1..], c)
    else For(ts[1..], c)
  }

  /** Whether `ts` holds a Deposit addressed to client `c`. */
  ghost predicate HasDepositFor(ts: seq<Transaction>, c: ClientId)
  {
    exists i :: 0 <= i < |ts| && ts[i].client == c && ts[i].txType.Deposit?
  }

  /**
   * An account is never opened by anything but a Deposit: a client with no
   * account and no Deposit in the feed still has no account afterwards.
   */
  lemma {:induction false} NoDepositNoAccount(m: Clients, ts: seq<Transaction>, c: ClientId)
    requires c !in m
    requires !HasDepositFor(ts, c)
    ensures c !in Run(m, ts)
    decreases |ts|
  {
    if ts != [] {
      assert !HasDepositFor(ts[1..], c) by {
        forall i | 0 <= i < |ts[1..]| && ts[1..][i].client == c
          ensures !ts[1..][i].txType.Deposit?
        {
          assert ts[1..][i] == ts[i + 1];
        }
      }
      NoDepositNoAccount(InsertTxn(m, ts[0]), ts[1..], c);
    }
  }

  /**
   * No record touches more than one account: the final account of a known
   * client is its initial account run through that client's own records.
   */
  lemma {:induction false} ClientIsolation(m: Clients, ts: seq<Transaction>, c: ClientId)
    requires c in m
    ensures c in Run(m, ts)
    ensures Run(m, ts)[c] == Accounts.Run(m[c], For(ts, c))
    decreases |ts|
  {
    if ts != [] {
      var m1 := InsertTxn(m, ts[0]);
      ClientIsolation(m1, ts[1..], c);
      if ts[0].client == c {
        assert For(ts, c) == [ts[0]] + For(ts[1..], c);
        assert ([ts[0]] + For(ts[1..], c))[1..] == For(ts[1..], c);
      }
    }
  }

  /**
   * An account is opened by a Deposit record even when the deposit itself is
   * rejected (a zero amount): the client then has an account with no
   * accepted transaction at all.
   */
  lemma ZeroDepositOpensAccount(m: Clients, c: ClientId, tx: TxId)
    requires c !in m
    ensures
      var r := InsertTxn(m, Transaction(Deposit, c, tx, 0));
      c in r && r[c] == Accounts.Open(c) && r[c].txns == map[]
  {
  }

  /**
   * Duplicate detection is per client: the same tx id, deposited to two
   * different open accounts, is accepted by both.
   */
  lemma TxIdsArePerClient(m: Clients, t1: Transaction, t2: Transaction)
    requires t1.txType.Deposit? && t2.txType.Deposit? && t1.tx == t2.tx
    requires t1.client != t2.client && t1.client in m && t2.client in m
    requires !m[t1.client].locked && !m[t2.client].locked
    requires t1.tx !in m[t1.client].txns && t2.tx !in m[t2.client].txns
    requires t1.amount != 0 && t2.amount != 0
    ensures
      var r := Run(m, [t1, t2]);
      && t1.client in r && t1.tx in r[t1.client].txns && r[t1.client].txns[t1.tx] == t1
      && t2.client in r && t2.tx in r[t2.client].txns && r[t2.client].txns[t2.tx] == t2
  {
    var m1 := InsertTxn(m, t1);
    assert [t1, t2][1..] == [t2];
    assert Run(m, [t1, t2]) == Run(m1, [t2]) == InsertTxn(m1, t2);
  }

  /** One output row: `client, available, held, total, locked`. */
  datatype Row = Row(client: ClientId, available: Amount, held: Amount, total: Amount, locked: bool)

  /** The row that `Client::to_string` renders for one account. */
  function RowOf(a: Accounts.Account): (r: Row)
    ensures r.client == a.client && r.locked == a.locked
    ensures r.total == r.available + r.held == Accounts.Total(a)
    ensures r.available == a.available
  {
    Row(a.client, a.available, a.held, a.available + a.held, a.locked)
  }

  /**
   * The snapshot `Bank::to_string` renders, as a set of rows (the source
   * enumerates the accounts in an unspecified order): one row per known
   * client, each with total == available + held.
   */
  function Rows(m: Clients): (rows: set<Row>)
    ensures forall r :: r in rows ==> r.total == r.available + r.held
    ensures forall c :: c in m ==> RowOf(m[c]) in rows
    ensures Valid(m) ==> forall r :: r in rows ==> r.client in m && r == RowOf(m[r.client])
  {
    set c | c in m :: RowOf(m[c])
  }
}
