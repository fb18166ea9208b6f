/**
 * The client state machine as values: an Account is the state of one
 * client, and each transaction kind is a function from the old state to the
 * new one. Every rejection leaves the account exactly as it was.
 */
module Accounts {
  import opened Transactions

  /** The state of one client: the fields of the source's Client. */
  datatype Account = Account(
    client: ClientId,
    txns: map<TxId, Transaction>,      // accepted deposits and withdrawals, by tx id
    available: Amount,
    held: Amount,
    locked: bool,
    disputes: map<TxId, Transaction>)  // open disputes, by tx id

  /** The total is never stored: it is always available + held. */
  function Total(a: Account): Amount
  {
    a.available + a.held
  }

  /** What a record stored under key `k` of the history looks like. */
  predicate Stored(t: Transaction, k: TxId)
  {
    t.tx == k && t.amount != 0 && IsTransfer(t)
  }

  /**
   * The account invariant: the history holds only non-zero deposits and
   * withdrawals, each under its own tx id, and every open dispute is the
   * very deposit record the history holds under the same id.
   */
  ghost predicate Valid(a: Account)
  {
    && (forall k :: k in a.txns ==> Stored(a.txns[k], k))
    && (forall k :: k in a.disputes ==> k in a.txns && a.disputes[k] == a.txns[k] && a.txns[k].txType.Deposit?)
  }

  /** Every record of the history is addressed to the account's own client. */
  ghost predicate Owned(a: Account)
  {
    forall k :: k in a.txns ==> a.txns[k].client == a.client
  }

  /** A fresh account, as `Client::new` builds it. */
  function Open(client: ClientId): (a: Account)
    ensures a.client == client && !a.locked
    ensures Total(a) == 0 && a.available == 0
    ensures Valid(a) && Owned(a)
    ensures a.txns == map[] && a.disputes == map[]
  {
    Account(client, map[], 0, 0, false, map[])
  }

  /**
   * `withdrawal`: rejected when the tx id is already in the history or the
   * amount is zero; otherwise the amount leaves `available` (which may go
   * negative) and the record joins the history.
   */
  function ApplyWithdrawal(a: Account, t: Transaction): (r: Account)
    ensures r == a <==> t.tx in a.txns || t.amount == 0
    ensures r != a ==> r.available == a.available - t.amount && r.txns == a.txns[t.tx := t]
    ensures r.held == a.held && r.locked == a.locked && r.disputes == a.disputes && r.client == a.client
    ensures Total(r) == Total(a) - (if r == a then 0 else t.amount)
    ensures Valid(a) && t.txType.Withdrawal? ==> Valid(r)
    ensures Owned(a) && t.client == a.client ==> Owned(r)
  {
    if t.tx !in a.txns && t.amount != 0 then
      a.(available := a.available - t.amount, txns := a.txns[t.tx := t])
    else
      a
  }

  /**
   * `deposit`: the same duplicate and zero-amount rejection as a withdrawal;
   * otherwise the amount joins `available` and the record joins the history.
   */
  function ApplyDeposit(a: Account, t: Transaction): (r: Account)
    ensures r == a <==> t.tx in a.txns || t.amount == 0
    ensures r != a ==> r.available == a.available + t.amount && r.txns == a.txns[t.tx := t]
    ensures r.held == a.held && r.locked == a.locked && r.disputes == a.disputes && r.client == a.client
    ensures Total(r) == Total(a) + (if r == a then 0 else t.amount)
    ensures Valid(a) && t.txType.Deposit? ==> Valid(r)
    ensures Owned(a) && t.client == a.client ==> Owned(r)
  {
    if t.tx !in a.txns && t.amount != 0 then
      a.(available := a.available + t.amount, txns := a.txns[t.tx := t])
    else
      a
  }

  /** The condition under which a dispute of `tx` takes effect. */
  predicate Disputable(a: Account, tx: TxId)
  {
    tx in a.txns && a.txns[tx].txType.Deposit?
  }

  /**
   * `dispute`: ignored unless `tx` names a deposit of the history; otherwise
   * the deposit's amount moves from available to held and the record is
   * (re-)entered among the open disputes. An already open dispute is not
   * rejected: the transfer is applied again.
   */
  function ApplyDispute(a: Account, tx: TxId): (r: Account)
    ensures !Disputable(a, tx) ==> r == a
    ensures Disputable(a, tx) ==>
      && r.disputes == a.disputes[tx := a.txns[tx]]
      && r.held == a.held + a.txns[tx].amount
    ensures Valid(a) ==> (r == a <==> !Disputable(a, tx))
    ensures Total(r) == Total(a)
    ensures r.txns == a.txns && r.locked == a.locked && r.client == a.client
    ensures Valid(a) ==> Valid(r)
  {
    if Disputable(a, tx) then
      var d := a.txns[tx];
      a.(available := a.available - d.amount, held := a.held + d.amount, disputes := a.disputes[tx := d])
    else
      a
  }

  /**
   * `resolve`: ignored unless a dispute of `tx` is open; otherwise the
   * disputed amount returns from held to available and the dispute closes.
   */
  function ApplyResolve(a: Account, tx: TxId): (r: Account)
    ensures tx !in a.disputes ==> r == a
    ensures tx in a.disputes ==>
      && tx !in r.disputes
      && r.disputes == a.disputes - {tx}
      && r.held == a.held - a.disputes[tx].amount
    ensures Total(r) == Total(a)
    ensures r.txns == a.txns && r.locked == a.locked && r.client == a.client
    ensures Valid(a) ==> Valid(r)
  {
    if tx in a.disputes then
      var d := a.disputes[tx];
      a.(available := a.available + d.amount, held := a.held - d.amount, disputes := a.disputes - {tx})
    else
      a
  }

  /**
   * `chargeback`: ignored unless a dispute of `tx` is open; otherwise the
   * disputed amount leaves held (available is untouched), the dispute closes
   * and the account locks.
   */
  function ApplyChargeback(a: Account, tx: TxId): (r: Account)
    ensures tx !in a.disputes ==> r == a
    ensures tx in a.disputes ==>
      && r.locked
      && r.disputes == a.disputes - {tx}
      && r.available == a.available
      && Total(r) == Total(a) - a.disputes[tx].amount
    ensures r.txns == a.txns && r.client == a.client
    ensures Valid(a) ==> Valid(r)
  {
    if tx in a.disputes then
      var d := a.disputes[tx];
      a.(held := a.held - d.amount, disputes := a.disputes - {tx}, locked := true)
    else
      a
  }

  /**
   * `process_txn`: a locked account ignores everything; otherwise dispatch
   * on the kind of the record.
   */
  function Apply(a: Account, t: Transaction): (r: Account)
    ensures a.locked ==> r == a
    ensures r.locked <==> a.locked || (t.txType.Chargeback? && t.tx in a.disputes)
    ensures r.client == a.client
    ensures forall k :: k in a.txns ==> k in r.txns && r.txns[k] == a.txns[k]
    ensures forall k :: k in r.txns && k !in a.txns ==> r.txns[k] == t
    ensures Valid(a) ==> Valid(r)
    ensures Owned(a) && t.client == a.client ==> Owned(r)
  {
    if a.locked then
      a
    else
      match t.txType
      case Withdrawal => ApplyWithdrawal(a, t)
      case Deposit => ApplyDeposit(a, t)
      case Dispute => ApplyDispute(a, t.tx)
      case Resolve => ApplyResolve(a, t.tx)
      case Chargeback => ApplyChargeback(a, t.tx)
  }

  /** Whether every record of `ts` is addressed to `client`. */
  ghost predicate AllFor(ts: seq<Transaction>, client: ClientId)
  {
    forall i :: 0 <= i < |ts| ==> ts[i].client == client
  }

  /** The account after applying the records `ts` one after the other. */
  function Run(a: Account, ts: seq<Transaction>): (r: Account)
    ensures r.client == a.client
    ensures a.locked ==> r.locked
    ensures forall k :: k in a.txns ==> k in r.txns && r.txns[k] == a.txns[k]
    ensures Valid(a) ==> Valid(r)
    ensures Owned(a) && AllFor(ts, a.client) ==> Owned(r)
    decreases |ts|
  {
    if ts == [] then a else Run(Apply(a, ts[0]), ts[1..])
  }

  /** Running two batches one after the other is running their concatenation. */
  lemma {:induction false} RunAppend(a: Account, xs: seq<Transaction>, ys: seq<Transaction>)
    ensures Run(a, xs + ys) == Run(Run(a, xs), ys)
    decreases |xs|
  {
    if xs == [] {
      assert xs + ys == ys;
    } else {
      assert (xs + ys)[1..] == xs[1..] + ys;
      RunAppend(Apply(a, xs[0]), xs[1..], ys);
    }
  }

  /** Running three records is applying them in turn. */
  lemma RunThree(a: Account, x: Transaction, y: Transaction, z: Transaction)
    ensures Run(a, [x, y, z]) == Apply(Apply(Apply(a, x), y), z)
  {
    var a1 := Apply(a, x);
    var a2 := Apply(a1, y);
    assert [x, y, z][1..] == [y, z];
    assert [y, z][1..] == [z];
    assert [z][1..] == [];
    calc {
      Run(a, [x, y, z]);
      Run(a1, [y, z]);
      Run(a2, [z]);
      Run(Apply(a2, z), []);
    }
  }

  /** A locked account ignores every later record. */
  lemma {:induction false} LockedIgnoresAll(a: Account, ts: seq<Transaction>)
    requires a.locked
    ensures Run(a, ts) == a
    decreases |ts|
  {
    if ts != [] {
      LockedIgnoresAll(Apply(a, ts[0]), ts[1..]);
    }
  }

  /**
   * Once a prefix of the feed has locked the account, the rest of the feed
   * changes nothing: the latch is never released.
   */
  lemma LockIsFinal(a: Account, ts: seq<Transaction>, n: nat)
    requires n <= |ts|
    requires Run(a, ts[..n]).locked
    ensures Run(a, ts) == Run(a, ts[..n])
  {
    assert ts == ts[..n] + ts[n..];
    RunAppend(a, ts[..n], ts[n..]);
    LockedIgnoresAll(Run(a, ts[..n]), ts[n..]);
  }

  /** Disputing a deposit and then resolving it restores the account exactly. */
  lemma DisputeResolveRestores(a: Account, tx: TxId)
    requires Valid(a) && Disputable(a, tx) && tx !in a.disputes
    ensures ApplyResolve(ApplyDispute(a, tx), tx) == a
  {
  }

  /**
   * Deposit, Dispute, Resolve on an open account: the dispute and the
   * resolution cancel out, leaving the balances the deposit produced.
   */
  lemma DepositDisputeResolve(a: Account, t: Transaction, amount1: Amount, amount2: Amount)
    requires Valid(a) && !a.locked
    requires t.txType.Deposit? && t.tx !in a.txns && t.amount != 0
    ensures
      var r := Run(a, [t, Transaction(Dispute, t.client, t.tx, amount1), Transaction(Resolve, t.client, t.tx, amount2)]);
      && r == Apply(a, t)
      && r.available == a.available + t.amount
      && r.held == a.held
  {
    var dispute := Transaction(Dispute, t.client, t.tx, amount1);
    var resolve := Transaction(Resolve, t.client, t.tx, amount2);
    var d := Apply(a, t);
    assert d.txns[t.tx] == t;
    RunThree(a, t, dispute, resolve);
    DisputeResolveRestores(d, t.tx);
  }

  /**
   * Deposit, Dispute, Chargeback on an open account: the deposit's amount
   * ends neither available nor held, the account locks, and every later
   * record is ignored.
   */
  lemma DepositDisputeChargeback(a: Account, t: Transaction, amount1: Amount, amount2: Amount, later: seq<Transaction>)
    requires Valid(a) && !a.locked
    requires t.txType.Deposit? && t.tx !in a.txns && t.amount != 0
    ensures
      var r := Run(a, [t, Transaction(Dispute, t.client, t.tx, amount1), Transaction(Chargeback, t.client, t.tx, amount2)] + later);
      && r.locked
      && r.available == a.available
      && r.held == a.held
      && r.disputes == a.disputes
      && r.txns == a.txns[t.tx := t]
  {
    var prefix := [t, Transaction(Dispute, t.client, t.tx, amount1), Transaction(Chargeback, t.client, t.tx, amount2)];
    RunAppend(a, prefix, later);
    RunThree(a, prefix[0], prefix[1], prefix[2]);
    var d := Apply(a, t);
    assert d.txns[t.tx] == t && d.available == a.available + t.amount && d.disputes == a.disputes;
    DisputeChargeback(d, t.tx);
    LockedIgnoresAll(Run(a, prefix), later);
  }

  /** Disputing a deposit and charging it back removes its amount and locks. */
  lemma DisputeChargeback(a: Account, tx: TxId)
    requires Valid(a) && Disputable(a, tx) && tx !in a.disputes
    ensures
      var r := ApplyChargeback(ApplyDispute(a, tx), tx);
      && r.locked
      && r.available == a.available - a.txns[tx].amount
      && r.held == a.held
      && r.disputes == a.disputes
      && r.txns == a.txns
  {
  }

  /** A second resolution of the same tx id takes no effect. */
  lemma ResolveIdempotent(a: Account, tx: TxId)
    ensures ApplyResolve(ApplyResolve(a, tx), tx) == ApplyResolve(a, tx)
  {
  }

  /** A duplicate deposit or withdrawal id is ignored: only the first counts. */
  lemma DuplicateIgnored(a: Account, t1: Transaction, t2: Transaction)
    requires !a.locked && IsTransfer(t1) && IsTransfer(t2) && t1.tx == t2.tx && t1.amount != 0
    ensures Apply(Apply(a, t1), t2) == Apply(a, t1)
  {
  }

  /**
   * The re-dispute quirk: a dispute of an already disputed deposit moves its
   * amount to held a second time, and one resolution then closes the dispute
   * while one copy of the amount stays held with no dispute open.
   */
  lemma RedisputeStrandsHeldFunds(a: Account, tx: TxId)
    requires Disputable(a, tx)
    ensures
      var amount := a.txns[tx].amount;
      var r := ApplyResolve(ApplyDispute(ApplyDispute(a, tx), tx), tx);
      && tx !in r.disputes
      && r.held == a.held + amount
      && r.available == a.available - amount
  {
  }
}
