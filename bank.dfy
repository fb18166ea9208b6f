/**
 * The bank as the source writes it: a Client object whose methods update its
 * balances, its lock and its two record maps in place, and a Bank object that
 * owns one Client per client id. Each method is specified by the value-level
 * transition it performs (modules Accounts and Ledger).
 */
module Bank {
  import opened Transactions
  import Accounts
  import Ledger

  class Client {
    const client: ClientId
    var txns: map<TxId, Transaction>
    var available: Amount
    var held: Amount
    var locked: bool
    var disputes: map<TxId, Transaction>

    /** The value of this client's state. */
    ghost function State(): Accounts.Account
      reads this
    {
      Accounts.Account(client, txns, available, held, locked, disputes)
    }

    constructor (client: ClientId)
      ensures State() == Accounts.Open(client)
    {
      this.client := client;
      txns := map[];
      available := 0;
      held := 0;
      locked := false;
      disputes := map[];
    }

    /** `to_string`, without the four-decimal formatting. */
    method ToRow() returns (r: Ledger.Row)
      ensures r == Ledger.RowOf(State())
    {
      r := Ledger.Row(client, available, held, available + held, locked);
    }

    method ProcessTxn(t: Transaction)
      modifies this
      ensures State() == Accounts.Apply(old(State()), t)
    {
      if !locked {
        match t.txType
        case Withdrawal => Withdrawal(t);
        case Deposit => Deposit(t);
        case Dispute => Dispute(t.tx);
        case Resolve => Resolve(t.tx);
        case Chargeback => Chargeback(t.tx);
      }
    }

    method Withdrawal(t: Transaction)
      modifies this
      ensures State() == Accounts.ApplyWithdrawal(old(State()), t)
    {
      if t.tx !in txns && t.amount != 0 {
        available := available - t.amount;
        txns := txns[t.tx := t];
      }
    }

    method Deposit(t: Transaction)
      modifies this
      ensures State() == Accounts.ApplyDeposit(old(State()), t)
    {
      if t.tx !in txns && t.amount != 0 {
        available := available + t.amount;
        txns := txns[t.tx := t];
      }
    }

    method Dispute(tx: TxId)
      modifies this
      ensures State() == Accounts.ApplyDispute(old(State()), tx)
    {
      if tx in txns {
        var txn := txns[tx];
        if txn.txType.Deposit? {
          var amount := txn.amount;
          available := available - amount;
          held := held + amount;
          disputes := disputes[tx := txn];
        }
      }
    }

    method Resolve(tx: TxId)
      modifies this
      ensures State() == Accounts.ApplyResolve(old(State()), tx)
    {
      if tx in disputes {
        var txn := disputes[tx];
        disputes := disputes - {tx};
        available := available + txn.amount;
        held := held - txn.amount;
      }
    }

    method Chargeback(tx: TxId)
      modifies this
      ensures State() == Accounts.ApplyChargeback(old(State()), tx)
    {
      if tx in disputes {
        var txn := disputes[tx];
        disputes := disputes - {tx};
        held := held - txn.amount;
        locked := true;
      }
    }
  }

  class Bank {
    var bank: map<ClientId, Client>

    /** The value of the whole bank: each client's state under its id. */
    ghost function Snapshot(): Ledger.Clients
      reads this, bank.Values
    {
      map c | c in bank :: bank[c].State()
    }

    /**
     * Each Client object sits under its own id (so no two ids share an
     * object), and the value of the bank keeps the ledger invariant.
     */
    ghost predicate Valid()
      reads this, bank.Values
    {
      && (forall c :: c in bank ==> bank[c].client == c)
      && Ledger.Valid(Snapshot())
    }

    constructor ()
      ensures Valid() && Snapshot() == map[]
    {
      bank := map[];
    }

    method AddClient(client: ClientId)
      requires Valid()
      modifies this
      ensures Valid()
      ensures Snapshot() == Ledger.AddClient(old(Snapshot()), client)
      ensures forall c :: c in old(bank) ==> c in bank && bank[c] == old(bank[c])
      ensures client !in old(bank) ==> fresh(bank[client])
    {
      if client !in bank {
        var c := new Client(client);
        bank := bank[client := c];
        assert Snapshot() == old(Snapshot())[client := Accounts.Open(client)];
      }
    }

    method InsertTxn(t: Transaction)
      requires Valid()
      modifies this, bank.Values
      ensures Valid()
      ensures Snapshot() == Ledger.InsertTxn(old(Snapshot()), t)
    {
      if t.client !in bank {
        if t.txType.Deposit? {
          AddClient(t.client);
        }
      }
      ghost var mid := Snapshot();
      assert mid == if Ledger.Opens(old(Snapshot()), t) then Ledger.AddClient(old(Snapshot()), t.client) else old(Snapshot());
      if t.client in bank {
        var c := bank[t.client];
        c.ProcessTxn(t);
        ghost var expected := mid[t.client := Accounts.Apply(mid[t.client], t)];
        forall k | k in bank
          ensures Snapshot()[k] == expected[k]
        {
          if k != t.client {
            assert bank[k] != c;
          }
        }
        assert Snapshot() == expected;
      }
      assert Snapshot() == Ledger.InsertTxn(old(Snapshot()), t);
      assert Ledger.Valid(Snapshot());
    }

    /** `to_string`: one row per client, in no particular order. */
    method Report() returns (rows: set<Ledger.Row>)
      requires Valid()
      ensures rows == Ledger.Rows(Snapshot())
    {
      rows := {};
      var todo := bank.Keys;
      while todo != {}
        invariant todo <= bank.Keys
        invariant rows == set c | c in bank.Keys - todo :: Ledger.RowOf(bank[c].State())
        decreases todo
      {
        var c :| c in todo;
        var row := bank[c].ToRow();
        rows := rows + {row};
        todo := todo - {c};
      }
      assert bank.Keys - todo == Snapshot().Keys;
    }
  }
}
