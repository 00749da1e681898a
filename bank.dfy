/** The bank as the application runs it: one store holding the accounts table
    and the transactions table, written by the Create Account and Transfer
    Money pages and read by the View Account and Transaction History pages. */
module BankApp {
  import opened Ledger
  import opened Queries

  class Bank {
    /** The accounts table, keyed by account number. */
    var accounts: map<string, Account>
    /** The transactions table, in commit order. */
    var log: seq<Record>

    function Snapshot(): Tables
      reads this
    {
      Tables(accounts, log)
    }

    ghost predicate Valid()
      reads this
    {
      Consistent(Snapshot())
    }

    /** init_db: both tables exist and are empty. */
    constructor ()
      ensures Valid()
      ensures accounts == map[] && log == []
    {
      accounts := map[];
      log := [];
      EmptyConsistent();
    }

    /** The Create Account page on submit: insert the account, record the
        opening deposit from INITIAL, commit. A clashing account number makes
        the INSERT fail before the commit, so nothing is written. */
    method CreateAccount(name: string, initialDeposit: real, draw: nat) returns (outcome: CreateOutcome)
      requires Valid()
      requires initialDeposit >= MinDeposit && MinDraw <= draw <= MaxDraw
      modifies this
      ensures Valid()
      ensures (outcome, Snapshot()) == Create(old(Snapshot()), name, initialDeposit, draw)
    {
      ghost var before := Snapshot();
      CreateKeepsConsistent(before, name, initialDeposit, draw);
      if name == [] {
        return NameMissing;
      }
      var number := AccountNumber(draw);
      if number in accounts {
        return NumberTaken;
      }
      accounts := accounts[number := Account(name, initialDeposit, |log|)];
      log := log + [Record(|log| + 1, Initial, number, initialDeposit, Deposit)];
      outcome := Created(number);
    }

    /** The Transfer Money page on submit: look up both balances, and when both
        accounts exist and the source covers the amount, debit the source,
        credit the destination (reading the balance the debit left), append
        one TRANSFER record and commit. */
    method TransferMoney(from: string, to: string, amount: real) returns (outcome: TransferOutcome)
      requires Valid()
      requires amount >= MinAmount
      modifies this
      ensures Valid()
      ensures (outcome, Snapshot()) == Move(old(Snapshot()), from, to, amount)
    {
      ghost var before := Snapshot();
      TransferKeepsConsistent(before, from, to, amount);
      var fromAcc := ViewAccount(from);
      var toAcc := ViewAccount(to);
      if fromAcc.Some? && toAcc.Some? {
        if fromAcc.value.balance >= amount {
          accounts := accounts[from := accounts[from].(balance := accounts[from].balance - amount)];
          accounts := accounts[to := accounts[to].(balance := accounts[to].balance + amount)];
          log := log + [Record(|log| + 1, from, to, amount, Transfer)];
          outcome := Transferred;
        } else {
          outcome := InsufficientBalance;
        }
      } else {
        outcome := AccountNotFound;
      }
    }

    /** The View Account page: the account row, or not found. What it shows
        is what replaying the log gives. */
    function ViewAccount(number: string): (found: Option<Account>)
      reads this
      requires Valid()
      ensures found.Some? <==> number in accounts
      ensures found.Some? ==> found.value == accounts[number]
      ensures found.Some? ==> found.value.balance == Net(log, number) && found.value.balance >= 0.0
    {
      if number in accounts then Some(accounts[number]) else None
    }

    /** The Transaction History page: every record naming the account on
        either side, newest first. */
    function TransactionHistory(number: string): (h: seq<Record>)
      reads this
      requires Valid()
      ensures forall r :: r in h <==> r in log && Involves(r, number)
      ensures forall i, j :: 0 <= i < j < |h| ==> h[i].id > h[j].id
      ensures number !in accounts && number != Initial ==> h == []
    {
      HistoryNewestFirst(log, number);
      UnknownHasNoHistory(Snapshot(), number);
      History(log, number)
    }
  }
}
