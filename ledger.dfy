/** The account ledger: the transactions document maps each username to an
    account holding a balance and the history of deposits and withdrawals.
    Money is a mathematical real, not a binary float. */
module Ledger {
  import opened Wrappers

  datatype Kind = Deposit | Withdrawal

  /** One history record: when it happened (an opaque date string), what it
      was, the amount moved and the balance just after it. */
  datatype Transaction = Transaction(date: string, kind: Kind, amount: real, balance: real)

  datatype Account = Account(balance: real, history: seq<Transaction>)

  /** The account `initialize_account` creates. */
  const NewAccount := Account(0.0, [])

  /** Why a deposit or a withdrawal is refused. `EmptyAccount` is the early
      refusal of a withdrawal from an account whose balance is not positive;
      `InsufficientFunds` carries the balance available. */
  datatype LedgerError = InvalidAmount | InsufficientFunds(available: real) | EmptyAccount

  /** The balance recorded by the last history entry, or 0 before any. */
  function LastBalance(history: seq<Transaction>): real
  {
    if history == [] then 0.0 else history[|history| - 1].balance
  }

  /** The change a record makes to the balance. */
  function Signed(t: Transaction): real
  {
    match t.kind
    case Deposit => t.amount
    case Withdrawal => -t.amount
  }

  /** The balance obtained by applying every record of `history` in order to
      an account that starts at 0: a reference definition independent of the
      snapshots stored in the records. */
  function Replay(history: seq<Transaction>): real
  {
    if history == [] then 0.0
    else Replay(history[..|history| - 1]) + Signed(history[|history| - 1])
  }

  /** The snapshot just before record `i`: that of record `i - 1`, or 0
      before the first record. */
  function Before(history: seq<Transaction>, i: nat): real
    requires i <= |history|
  {
    if i == 0 then 0.0 else history[i - 1].balance
  }

  /** Record `t` correctly follows a balance of `previous`: it moves a
      positive amount, its snapshot is `previous` plus its signed amount, and
      that snapshot is not negative. */
  predicate Follows(t: Transaction, previous: real)
  {
    t.amount > 0.0 && t.balance == previous + Signed(t) && t.balance >= 0.0
  }

  /** Every record follows the snapshot of the one before it. */
  predicate Chained(history: seq<Transaction>)
  {
    forall i :: 0 <= i < |history| ==> Follows(history[i], Before(history, i))
  }

  /** The ledger invariant of one account: the history is chained and the
      balance is the last record's snapshot, or 0 when there is none. */
  predicate Consistent(a: Account)
  {
    Chained(a.history) && a.balance == LastBalance(a.history)
  }

  /** The snapshots of a chained history agree with replaying it. */
  lemma {:induction false} ReplayIsLastBalance(history: seq<Transaction>)
    requires Chained(history)
    ensures Replay(history) == LastBalance(history)
  {
    if history != [] {
      var n := |history| - 1;
      var prefix := history[..n];
      forall i | 0 <= i < n ensures Follows(prefix[i], Before(prefix, i)) {
        assert prefix[i] == history[i];
        assert Before(prefix, i) == Before(history, i);
      }
      ReplayIsLastBalance(prefix);
      assert LastBalance(prefix) == Before(history, n);
      assert Follows(history[n], Before(history, n));
    }
  }

  /** A consistent account never has a negative balance. */
  lemma ConsistentBalanceIsNonNegative(a: Account)
    requires Consistent(a)
    ensures a.balance >= 0.0
  {
    if a.history != [] {
      assert Follows(a.history[|a.history| - 1], Before(a.history, |a.history| - 1));
    }
  }

  /** Appending a record that correctly follows the last snapshot keeps a
      history chained. */
  lemma AppendKeepsChained(history: seq<Transaction>, t: Transaction)
    requires Chained(history)
    requires Follows(t, LastBalance(history))
    ensures Chained(history + [t])
  {
    var h := history + [t];
    forall i | 0 <= i < |h| ensures Follows(h[i], Before(h, i)) {
      if i < |history| {
        assert h[i] == history[i];
        assert Before(h, i) == Before(history, i);
      } else {
        assert h[i] == t;
        assert Before(h, i) == LastBalance(history);
      }
    }
  }

  /** `initialize_account` on the document: an absent username gets a new
      account; a present one keeps its account, and every other entry is
      untouched. */
  function Initialized(document: map<string, Account>, username: string): (r: map<string, Account>)
    ensures username in r && r.Keys == document.Keys + {username}
    ensures username in document ==> r == document
    ensures username !in document ==> r[username] == NewAccount
    ensures forall u :: u in document ==> r[u] == document[u]
  {
    if username in document then document else document[username := NewAccount]
  }

  /** Initializing twice has the effect of initializing once. */
  lemma InitializeIdempotent(document: map<string, Account>, username: string)
    ensures Initialized(Initialized(document, username), username) == Initialized(document, username)
  {
  }

  /** A deposit into one account: refused unless the amount is positive;
      otherwise the balance grows by exactly the amount and exactly one
      `Deposit` record, carrying the new balance, is appended. */
  function DepositInto(a: Account, amount: real, date: string): (r: Result<Account, LedgerError>)
    ensures r.Success? <==> amount > 0.0
    ensures r.Failure? ==> r.error == InvalidAmount
    ensures r.Success? ==>
      && r.value.balance == a.balance + amount
      && |r.value.history| == |a.history| + 1
      && r.value.history[..|a.history|] == a.history
      && r.value.history[|a.history|] == Transaction(date, Deposit, amount, r.value.balance)
    ensures r.Success? && Consistent(a) ==> Consistent(r.value)
  {
    if amount <= 0.0 then Failure(InvalidAmount)
    else
      var balance := a.balance + amount;
      var t := Transaction(date, Deposit, amount, balance);
      if Consistent(a) then
        ConsistentBalanceIsNonNegative(a);
        AppendKeepsChained(a.history, t);
        Success(Account(balance, a.history + [t]))
      else
        Success(Account(balance, a.history + [t]))
  }

  /** A withdrawal from one account: refused at once when the balance is
      not positive, then refused unless `0 < amount <= balance`; otherwise
      the balance shrinks by exactly the amount (so it stays non-negative)
      and exactly one `Withdrawal` record, carrying the new balance, is
      appended. */
  function WithdrawFrom(a: Account, amount: real, date: string): (r: Result<Account, LedgerError>)
    ensures r.Success? <==> 0.0 < amount <= a.balance
    ensures a.balance <= 0.0 ==> r == Failure(EmptyAccount)
    ensures a.balance > 0.0 && amount <= 0.0 ==> r == Failure(InvalidAmount)
    ensures a.balance > 0.0 && amount > a.balance ==> r == Failure(InsufficientFunds(a.balance))
    ensures r.Success? ==>
      && r.value.balance == a.balance - amount
      && r.value.balance >= 0.0
      && |r.value.history| == |a.history| + 1
      && r.value.history[..|a.history|] == a.history
      && r.value.history[|a.history|] == Transaction(date, Withdrawal, amount, r.value.balance)
    ensures r.Success? && Consistent(a) ==> Consistent(r.value)
  {
    if a.balance <= 0.0 then Failure(EmptyAccount)
    else if amount <= 0.0 then Failure(InvalidAmount)
    else if amount > a.balance then Failure(InsufficientFunds(a.balance))
    else
      var balance := a.balance - amount;
      var t := Transaction(date, Withdrawal, amount, balance);
      if Consistent(a) then
        ConsistentBalanceIsNonNegative(a);
        AppendKeepsChained(a.history, t);
        Success(Account(balance, a.history + [t]))
      else
        Success(Account(balance, a.history + [t]))
  }

  /** The in-memory transactions document and the operations the menu runs
      on it. Each operation names an account that `initialize_account` has
      already created, as the program indexes the document directly. */
  class Bank {
    var accounts: map<string, Account>

    /** Every account in the document keeps the ledger invariant. */
    ghost predicate Valid()
      reads this
    {
      forall u :: u in accounts ==> Consistent(accounts[u])
    }

    /** Starts from a loaded document, whatever it holds. */
    constructor (document: map<string, Account>)
      ensures accounts == document
    {
      accounts := document;
    }

    /** Creates the account for `username` if it is missing; reports whether
        it did. */
    method InitializeAccount(username: string) returns (created: bool)
      modifies this
      ensures created <==> username !in old(accounts)
      ensures accounts == Initialized(old(accounts), username)
      ensures old(Valid()) ==> Valid()
    {
      created := username !in accounts;
      if created {
        accounts := accounts[username := Account(0.0, [])];
      }
    }

    /** Deposits `amount` and returns the new balance, or refuses a
        non-positive amount and leaves the document as it was (the prompt
        then asks again). */
    method Deposit(username: string, amount: real, date: string) returns (r: Result<real, LedgerError>)
      requires username in accounts
      modifies this
      ensures var d := DepositInto(old(accounts[username]), amount, date);
        && (d.Success? ==> accounts == old(accounts)[username := d.value] && r == Success(d.value.balance))
        && (d.Failure? ==> accounts == old(accounts) && r == Failure(d.error))
      ensures old(Valid()) ==> Valid()
    {
      if amount <= 0.0 {
        return Failure(InvalidAmount);
      }
      var account := accounts[username];
      ghost var before := account;
      account := account.(balance := account.balance + amount);
      var record := Transaction(date, Kind.Deposit, amount, account.balance);
      account := account.(history := account.history + [record]);
      accounts := accounts[username := account];
      r := Success(account.balance);
      assert DepositInto(before, amount, date) == Success(account);
    }

    /** Withdraws `amount` and returns the new balance; refuses when the
        account is empty, and refuses an amount that is not positive or
        exceeds the balance, leaving the document as it was. */
    method Withdraw(username: string, amount: real, date: string) returns (r: Result<real, LedgerError>)
      requires username in accounts
      modifies this
      ensures var w := WithdrawFrom(old(accounts[username]), amount, date);
        && (w.Success? ==> accounts == old(accounts)[username := w.value] && r == Success(w.value.balance))
        && (w.Failure? ==> accounts == old(accounts) && r == Failure(w.error))
      ensures old(Valid()) ==> Valid()
    {
      var account := accounts[username];
      var current := account.balance;
      if current <= 0.0 {
        return Failure(EmptyAccount);
      }
      if amount <= 0.0 {
        return Failure(InvalidAmount);
      }
      if amount > current {
        return Failure(InsufficientFunds(current));
      }
      ghost var before := account;
      account := account.(balance := account.balance - amount);
      var record := Transaction(date, Withdrawal, amount, account.balance);
      account := account.(history := account.history + [record]);
      accounts := accounts[username := account];
      r := Success(account.balance);
      assert WithdrawFrom(before, amount, date) == Success(account);
    }

    /** `check_balance`: the stored balance, which for a consistent account
        is the last record's snapshot and never negative. */
    function CheckBalance(username: string): (b: real)
      reads this
      requires username in accounts
      ensures Consistent(accounts[username]) ==> b >= 0.0 && b == LastBalance(accounts[username].history)
    {
      accounts[username].balance
    }

    /** `view_transactions`: the history exactly as stored, oldest first; for
        a consistent account every record moves a positive amount and
        replaying the records gives the balance. */
    function ViewTransactions(username: string): (h: seq<Transaction>)
      reads this
      requires username in accounts
      ensures h == accounts[username].history
      ensures Consistent(accounts[username]) ==>
        && Replay(h) == CheckBalance(username)
        && forall i :: 0 <= i < |h| ==> h[i].amount > 0.0
    {
      var h := accounts[username].history;
      if Consistent(accounts[username]) then
        ReplayIsLastBalance(h);
        h
      else
        h
    }
  }

  /** A session on a fresh document: initialize, deposit 100, a refused
      withdrawal of 150, withdraw 40, deposit 10. */
  method ExampleSession()
  {
    var bank := new Bank(map[]);
    var created := bank.InitializeAccount("alice");
    assert created && bank.CheckBalance("alice") == 0.0 && bank.ViewTransactions("alice") == [];
    var r := bank.Deposit("alice", 100.0, "2024-01-01 09:00:00");
    assert r == Success(100.0);
    r := bank.Withdraw("alice", 150.0, "2024-01-01 09:01:00");
    assert r == Failure(InsufficientFunds(100.0));
    assert bank.CheckBalance("alice") == 100.0 && |bank.ViewTransactions("alice")| == 1;
    r := bank.Withdraw("alice", 40.0, "2024-01-01 09:02:00");
    assert r == Success(60.0);
    r := bank.Deposit("alice", 10.0, "2024-01-01 09:03:00");
    assert r == Success(70.0);
    r := bank.Deposit("alice", -5.0, "2024-01-01 09:04:00");
    assert r == Failure(InvalidAmount);
    var h := bank.ViewTransactions("alice");
    assert |h| == 3;
    assert h[0].kind == Deposit && h[0].balance == 100.0;
    assert h[1].kind == Withdrawal && h[1].balance == 60.0;
    assert h[2].kind == Deposit && h[2].balance == 70.0;
    created := bank.InitializeAccount("alice");
    assert !created && bank.CheckBalance("alice") == 70.0;
  }
}
