/** The two tables of the bank (accounts and the transaction log), the two
    operations that write them, and the invariants those operations keep. */
module Ledger {
  import Decimal

  datatype Option<T> = None | Some(value: T)

  /** The `transaction_type` column: the code writes only these two values. */
  datatype Kind = Deposit | Transfer

  /** A row of the accounts table. `createdAt` is the logical time of creation:
      the number of log records committed before the account. */
  datatype Account = Account(name: string, balance: real, createdAt: nat)

  /** A row of the transactions table; `id` is the AUTOINCREMENT key. */
  datatype Record = Record(id: nat, fromAccount: string, toAccount: string, amount: real, kind: Kind)

  /** Both tables: account number to account, and the append-only log. */
  datatype Tables = Tables(accounts: map<string, Account>, log: seq<Record>)

  datatype CreateOutcome = Created(number: string) | NameMissing | NumberTaken
  datatype TransferOutcome = Transferred | InsufficientBalance | AccountNotFound

  /** The `from_account` of every opening deposit. */
  const Initial: string := "INITIAL"
  /** Lower bound of the opening-deposit widget. */
  const MinDeposit: real := 500.0
  /** Lower bound of the transfer-amount widget. */
  const MinAmount: real := 1.0
  /** Range of the random draw an account number is made from. */
  const MinDraw: nat := 10000
  const MaxDraw: nat := 99999

  // ---------------------------------------------------------------- account numbers

  function AccountNumber(draw: nat): (number: string)
    ensures |number| > 3 && number[..3] == "ACC" && Decimal.AllDigits(number[3..])
    ensures number != Initial
  {
    var number := "ACC" + Decimal.Render(draw);
    assert number[1] != Initial[1];
    assert number[3..] == Decimal.Render(draw);
    number
  }

  function ParseAccountNumber(s: string): (draw: Option<nat>)
    ensures draw.Some? <==> |s| > 3 && s[..3] == "ACC" && Decimal.AllDigits(s[3..])
  {
    if |s| > 3 && s[..3] == "ACC" && Decimal.AllDigits(s[3..]) then Some(Decimal.Parse(s[3..])) else None
  }

  lemma AccountNumberRoundTrip(draw: nat)
    ensures ParseAccountNumber(AccountNumber(draw)) == Some(draw)
  {
    assert AccountNumber(draw)[3..] == Decimal.Render(draw);
    Decimal.ParseRender(draw);
  }

  /** Two draws give the same account number only when they are equal, and a
      drawn number is "ACC" followed by exactly five digits. */
  lemma AccountNumberShape(d1: nat, d2: nat)
    requires MinDraw <= d1 <= MaxDraw
    ensures |AccountNumber(d1)| == 8
    ensures AccountNumber(d1) == AccountNumber(d2) <==> d1 == d2
  {
    Decimal.RenderFiveDigits(d1);
    AccountNumberRoundTrip(d1);
    AccountNumberRoundTrip(d2);
  }

  // ---------------------------------------------------------------- replaying the log

  /** What one record does to the balance of account `a`. */
  function Delta(r: Record, a: string): real {
    (if r.toAccount == a then r.amount else 0.0) - (if r.fromAccount == a then r.amount else 0.0)
  }

  /** The balance of `a` obtained by replaying the log from zero, oldest first. */
  function Net(log: seq<Record>, a: string): real
    decreases |log|
  {
    if log == [] then 0.0 else Net(log[..|log| - 1], a) + Delta(log[|log| - 1], a)
  }

  /** Sum of the amounts of all DEPOSIT records: the money that entered the bank. */
  function Deposited(log: seq<Record>): real
    decreases |log|
  {
    if log == [] then 0.0
    else Deposited(log[..|log| - 1]) + (if log[|log| - 1].kind == Deposit then log[|log| - 1].amount else 0.0)
  }

  lemma NetAppend(log: seq<Record>, r: Record, a: string)
    ensures Net(log + [r], a) == Net(log, a) + Delta(r, a)
    ensures Deposited(log + [r]) == Deposited(log) + (if r.kind == Deposit then r.amount else 0.0)
  {
    assert (log + [r])[..|log|] == log;
  }

  /** An account that no record mentions has a replayed balance of zero. */
  lemma {:induction false} NetUnmentioned(log: seq<Record>, a: string)
    requires forall i :: 0 <= i < |log| ==> log[i].fromAccount != a && log[i].toAccount != a
    ensures Net(log, a) == 0.0
    decreases |log|
  {
    if log != [] {
      NetUnmentioned(log[..|log| - 1], a);
    }
  }

  // ---------------------------------------------------------------- sum of balances

  lemma RemoveShrinks(m: map<string, Account>, k: string)
    requires k in m
    ensures |m - {k}| == |m| - 1
  {
    assert (m - {k}).Keys == m.Keys - {k};
  }

  /** Sum of the balances of all accounts. */
  ghost function Total(m: map<string, Account>): real
    decreases |m|
  {
    if m == map[] then 0.0
    else
      var k :| k in m;
      RemoveShrinks(m, k);
      m[k].balance + Total(m - {k})
  }

  lemma {:induction false} TotalRemove(m: map<string, Account>, k: string)
    requires k in m
    ensures Total(m) == m[k].balance + Total(m - {k})
    decreases |m|
  {
    var j :| j in m && Total(m) == m[j].balance + Total(m - {j});
    RemoveShrinks(m, j);
    RemoveShrinks(m, k);
    if j != k {
      TotalRemove(m - {j}, k);
      TotalRemove(m - {k}, j);
      assert m - {j} - {k} == m - {k} - {j};
    }
  }

  /** Replacing one account changes the sum by the difference of its balances. */
  lemma TotalUpdate(m: map<string, Account>, k: string, v: Account)
    ensures k in m ==> Total(m[k := v]) == Total(m) - m[k].balance + v.balance
    ensures k !in m ==> Total(m[k := v]) == Total(m) + v.balance
  {
    TotalRemove(m[k := v], k);
    if k in m {
      TotalRemove(m, k);
      assert m[k := v] - {k} == m - {k};
    } else {
      assert m[k := v] - {k} == m;
    }
  }

  // ---------------------------------------------------------------- the invariant

  /** A record refers to accounts that exist (or to the INITIAL sentinel for a
      deposit) and moves a positive amount. */
  ghost predicate RecordFits(t: Tables, r: Record) {
    && r.amount > 0.0
    && r.toAccount in t.accounts
    && (r.kind == Deposit ==> r.fromAccount == Initial)
    && (r.kind == Transfer ==> r.fromAccount in t.accounts)
  }

  /** What holds of the tables between page submissions: the sentinel is never
      an account, ids are 1, 2, 3, ... in log order, every balance is
      non-negative and equals the replay of the log, and the sum of balances
      equals the money deposited. */
  ghost predicate Consistent(t: Tables) {
    && Initial !in t.accounts
    && (forall i :: 0 <= i < |t.log| ==> t.log[i].id == i + 1)
    && (forall i :: 0 <= i < |t.log| ==> RecordFits(t, t.log[i]))
    && (forall a :: a in t.accounts ==> t.accounts[a].balance >= 0.0)
    && (forall a :: a in t.accounts ==> t.accounts[a].balance == Net(t.log, a))
    && Total(t.accounts) == Deposited(t.log)
  }

  lemma EmptyConsistent()
    ensures Consistent(Tables(map[], []))
  {
    assert Total(map[]) == 0.0;
  }

  // ---------------------------------------------------------------- create_account

  /** Creating an account from a form with `name` and `deposit`, where the
      random draw came out as `draw`. */
  function Create(t: Tables, name: string, deposit: real, draw: nat): (r: (CreateOutcome, Tables))
    requires deposit >= MinDeposit && MinDraw <= draw <= MaxDraw
    ensures r.0 == NameMissing <==> name == []
    ensures r.0 == NumberTaken <==> name != [] && AccountNumber(draw) in t.accounts
    ensures r.0.Created? ==> r.0.number == AccountNumber(draw) && r.0.number !in t.accounts
    ensures !r.0.Created? ==> r.1 == t
    ensures r.0.Created? ==>
      && r.1.accounts.Keys == t.accounts.Keys + {r.0.number}
      && r.1.accounts[r.0.number] == Account(name, deposit, |t.log|)
      && (forall a :: a in t.accounts ==> r.1.accounts[a] == t.accounts[a])
    ensures r.0.Created? ==>
      && |r.1.log| == |t.log| + 1
      && r.1.log[..|t.log|] == t.log
      && r.1.log[|t.log|] == Record(|t.log| + 1, Initial, r.0.number, deposit, Deposit)
  {
    if name == [] then (NameMissing, t)
    else
      var number := AccountNumber(draw);
      if number in t.accounts then (NumberTaken, t)
      else
        var accounts := t.accounts[number := Account(name, deposit, |t.log|)];
        var log := t.log + [Record(|t.log| + 1, Initial, number, deposit, Deposit)];
        (Created(number), Tables(accounts, log))
  }

  lemma {:induction false} CreateKeepsConsistent(t: Tables, name: string, deposit: real, draw: nat)
    requires Consistent(t)
    requires deposit >= MinDeposit && MinDraw <= draw <= MaxDraw
    ensures Consistent(Create(t, name, deposit, draw).1)
  {
    var r := Create(t, name, deposit, draw);
    if r.0.Created? {
      var x, t' := r.0.number, r.1;
      var rec := Record(|t.log| + 1, Initial, x, deposit, Deposit);
      assert t'.log == t.log + [rec];
      forall a | a in t'.accounts
        ensures t'.accounts[a].balance == Net(t'.log, a)
      {
        NetAppend(t.log, rec, a);
        if a == x {
          forall i | 0 <= i < |t.log|
            ensures t.log[i].fromAccount != x && t.log[i].toAccount != x
          {
            assert RecordFits(t, t.log[i]);
          }
          NetUnmentioned(t.log, x);
        }
      }
      forall i | 0 <= i < |t'.log|
        ensures RecordFits(t', t'.log[i])
      {
        if i < |t.log| {
          assert RecordFits(t, t.log[i]);
        }
      }
      NetAppend(t.log, rec, x);
      TotalUpdate(t.accounts, x, Account(name, deposit, |t.log|));
      assert t'.accounts == t.accounts[x := Account(name, deposit, |t.log|)];
    }
  }

  // ---------------------------------------------------------------- transfer_money

  /** Moving `amount` from account `from` to account `to`: both must exist and
      the source balance must cover the amount; `from == to` is not refused. */
  function Move(t: Tables, from: string, to: string, amount: real): (r: (TransferOutcome, Tables))
    requires amount >= MinAmount
    ensures r.0 == AccountNotFound <==> from !in t.accounts || to !in t.accounts
    ensures r.0 == InsufficientBalance <==>
      from in t.accounts && to in t.accounts && t.accounts[from].balance < amount
    ensures !r.0.Transferred? ==> r.1 == t
    ensures r.0.Transferred? ==>
      && r.1.accounts.Keys == t.accounts.Keys
      && forall a :: a in t.accounts ==>
           r.1.accounts[a] == t.accounts[a].(balance := t.accounts[a].balance
                                                      - (if a == from then amount else 0.0)
                                                      + (if a == to then amount else 0.0))
    ensures r.0.Transferred? && from == to ==> r.1.accounts == t.accounts
    ensures r.0.Transferred? ==>
      && |r.1.log| == |t.log| + 1
      && r.1.log[..|t.log|] == t.log
      && r.1.log[|t.log|] == Record(|t.log| + 1, from, to, amount, Transfer)
  {
    if from !in t.accounts || to !in t.accounts then (AccountNotFound, t)
    else if t.accounts[from].balance < amount then (InsufficientBalance, t)
    else
      var debited := t.accounts[from := t.accounts[from].(balance := t.accounts[from].balance - amount)];
      var credited := debited[to := debited[to].(balance := debited[to].balance + amount)];
      assert from == to ==> credited == t.accounts;
      (Transferred, Tables(credited, t.log + [Record(|t.log| + 1, from, to, amount, Transfer)]))
  }

  /** A transfer neither creates nor destroys money, self-transfers included. */
  lemma TransferConservesTotal(t: Tables, from: string, to: string, amount: real)
    requires amount >= MinAmount
    ensures Total(Move(t, from, to, amount).1.accounts) == Total(t.accounts)
  {
    var r := Move(t, from, to, amount);
    if r.0.Transferred? && from != to {
      var m := t.accounts;
      var debited := m[from := m[from].(balance := m[from].balance - amount)];
      TotalUpdate(m, from, debited[from]);
      TotalUpdate(debited, to, r.1.accounts[to]);
      assert r.1.accounts == debited[to := r.1.accounts[to]];
    }
  }

  lemma {:induction false} TransferKeepsConsistent(t: Tables, from: string, to: string, amount: real)
    requires Consistent(t)
    requires amount >= MinAmount
    ensures Consistent(Move(t, from, to, amount).1)
  {
    var r := Move(t, from, to, amount);
    if r.0.Transferred? {
      var t' := r.1;
      var rec := Record(|t.log| + 1, from, to, amount, Transfer);
      assert t'.log == t.log + [rec];
      forall a | a in t'.accounts
        ensures t'.accounts[a].balance == Net(t'.log, a)
      {
        NetAppend(t.log, rec, a);
      }
      forall i | 0 <= i < |t'.log|
        ensures RecordFits(t', t'.log[i])
      {
        if i < |t.log| {
          assert RecordFits(t, t.log[i]);
        }
      }
      NetAppend(t.log, rec, from);
      TransferConservesTotal(t, from, to, amount);
    }
  }

  // ---------------------------------------------------------------- sessions

  /** One submitted form of the Create Account or Transfer Money page. */
  datatype Request =
    | OpenAccount(name: string, deposit: real, draw: nat)
    | SendMoney(from: string, to: string, amount: real)

  /** What the form widgets and the random draw guarantee about a request. */
  predicate Admissible(q: Request) {
    match q
    case OpenAccount(_, deposit, draw) => deposit >= MinDeposit && MinDraw <= draw <= MaxDraw
    case SendMoney(_, _, amount) => amount >= MinAmount
  }

  function Apply(t: Tables, q: Request): Tables
    requires Admissible(q)
  {
    match q
    case OpenAccount(name, deposit, draw) => Create(t, name, deposit, draw).1
    case SendMoney(from, to, amount) => Move(t, from, to, amount).1
  }

  /** The tables after serving `requests` in order, starting from the empty
      tables that init_db creates. */
  function Run(requests: seq<Request>): Tables
    requires forall i :: 0 <= i < |requests| ==> Admissible(requests[i])
    decreases |requests|
  {
    if requests == [] then Tables(map[], [])
    else Apply(Run(requests[..|requests| - 1]), requests[|requests| - 1])
  }

  /** Every state the application can reach keeps the invariant: balances are
      non-negative and re-derivable from the log, and their sum is the money
      deposited. */
  lemma {:induction false} RunConsistent(requests: seq<Request>)
    requires forall i :: 0 <= i < |requests| ==> Admissible(requests[i])
    ensures Consistent(Run(requests))
    decreases |requests|
  {
    if requests == [] {
      EmptyConsistent();
    } else {
      var prefix := requests[..|requests| - 1];
      RunConsistent(prefix);
      match requests[|requests| - 1]
      case OpenAccount(name, deposit, draw) =>
        CreateKeepsConsistent(Run(prefix), name, deposit, draw);
      case SendMoney(from, to, amount) =>
        TransferKeepsConsistent(Run(prefix), from, to, amount);
    }
  }
}
