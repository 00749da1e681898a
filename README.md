# Bank ledger model

A Dafny model of the account ledger inside the Streamlit bank application
`bank_app.py`. The application keeps two SQLite tables: `accounts`
(account number to holder name, balance and creation time) and
`transactions`, an append-only log of (id, from_account, to_account, amount,
transaction_type, timestamp). Four page handlers use them:

- **Create Account** inserts `ACC<n>` for a random `n` in 10000..99999, with the
  opening deposit as its balance, and logs a `DEPOSIT` from the sentinel
  `INITIAL`. It does nothing when the name is empty. When the number is already
  taken, the primary-key INSERT fails before the commit, so nothing is written.
- **Transfer Money** reads both balances. If both accounts exist and the source
  balance covers the amount, it runs `balance - amount` on the source and then
  `balance + amount` on the destination, appends one `TRANSFER` record and
  commits. Otherwise it reports "not found" or "insufficient balance" and writes
  nothing. It does not refuse `from == to`. A self-transfer debits and then
  credits the same row, so in exact arithmetic the balance is unchanged, but a
  record is still appended.
- **View Account** is a keyed lookup.
- **Transaction History** lists the records whose from or to side is the
  account, newest first.

Layout:

- `decimal.dfy` (module `Decimal`): `str(n)` for non-negative integers, and its inverse.
  The inverse, `Ledger.ParseAccountNumber` and the lemmas about them are helpers
  for the account-number format at bank_app.py:57. The source never parses an
  account number; they show that the format is unambiguous and never collides
  with the sentinel.
- `ledger.dfy` (module `Ledger`): the rows, the two tables as a value `Tables`,
  and the create and transfer operations as functions on it. It also holds the
  log replay (`Net`), the sum of balances (`Total`), the invariant
  `Consistent`, the proofs that both operations keep it, and `Run`, which
  serves any sequence of requests from the empty tables.
- `queries.dfy` (module `Queries`): the history query and its properties.
- `bank.dfy` (module `BankApp`): class `Bank`. Its fields `accounts` (a map)
  and `log` (a sequence) are updated in place by `CreateAccount` and
  `TransferMoney`, which are proved against `Create` and `Move`.
  `ViewAccount` and `TransactionHistory` read them.

Representation choices:

- Amounts are Dafny `real`, for the source's `REAL` columns.
- Time is log position. A record's id is its AUTOINCREMENT key, which is
  1, 2, 3, ... in log order because nothing is ever deleted. An account's
  `createdAt` is the number of records committed before it.
- The random draw is a parameter.
- The widget minimums (opening deposit >= 500.0, transfer amount >= 1.0) and
  the draw's range are preconditions, because the form never submits anything
  else.

The model follows what the code does. The code has no self-transfer check.
It does not retry a failed operation or handle contention. Its only deposit
sentinel is `INITIAL`, and it has no withdrawals.

## Model

| member | source | states |
|---|---|---|
| `Decimal.ParseRender` | bank_app.py:57 | format helper: the decimal text of the drawn number reads back as that number, so `str` is injective |
| `Decimal.RenderFiveDigits` | bank_app.py:57 | a draw in 10000..99999 renders as exactly five digits |
| `Ledger.AccountNumber` | bank_app.py:57 | an account number is "ACC" followed by digits, and is never the sentinel "INITIAL" |
| `Ledger.AccountNumberRoundTrip` | bank_app.py:57 | format helper: parsing an account number gives back the draw it was made from |
| `Ledger.AccountNumberShape` | bank_app.py:57 | format helper: a drawn account number has 8 characters; two draws give the same number exactly when they are equal |
| `Ledger.NetAppend` | bank_app.py:121-128 | appending one record changes an account's replayed balance by what that record moves in and out of it, and the deposited total by its amount when it is a DEPOSIT |
| `Ledger.NetUnmentioned` | bank_app.py:63-70 | an account no record mentions replays to a zero balance, so a new account's balance is its opening deposit alone |
| `Ledger.TotalUpdate` | bank_app.py:121-122 | changing one account's balance changes the sum of balances by the difference; adding an account adds its balance |
| `Ledger.EmptyConsistent` | bank_app.py:8-29 | the freshly created empty tables satisfy the invariant |
| `Ledger.Create` | bank_app.py:55-72 | empty name: NameMissing and nothing written; taken number: NumberTaken and nothing written; otherwise exactly the new account `ACC<draw>` with balance = deposit is added, existing accounts are unchanged, and exactly one DEPOSIT record from INITIAL with the next id is appended after the unchanged log |
| `Ledger.CreateKeepsConsistent` | bank_app.py:55-72 | account creation keeps the invariant: balances non-negative and equal to the log replay, sum of balances equals deposits, ids consecutive, records name existing accounts |
| `Ledger.Move` | bank_app.py:110-137 | a missing account gives AccountNotFound and a short source balance gives InsufficientBalance (each exactly when its guard holds), and neither writes anything; a success debits the source by amount and credits the destination by amount, leaves every other account unchanged, leaves balances unchanged for a self-transfer, and appends exactly one TRANSFER record with the next id after the unchanged log |
| `Ledger.TransferConservesTotal` | bank_app.py:119-122 | a transfer leaves the sum of all balances unchanged, self-transfers included |
| `Ledger.TransferKeepsConsistent` | bank_app.py:115-130 | a transfer keeps the invariant, in particular every balance non-negative and equal to the log replay |
| `Ledger.RunConsistent` | bank_app.py:168-176 | after any sequence of Create Account and Transfer Money submissions from empty tables, the invariant holds |
| `Queries.History` | bank_app.py:148-152 | the history holds exactly the log records whose from_account or to_account is the account, and is no longer than the log |
| `Queries.HistoryNewestFirst` | bank_app.py:148-152 | with ids in log order, the history lists strictly decreasing ids: newest first, no record twice |
| `Queries.HistoryAfterAppend` | bank_app.py:125-128 | a newly appended record heads the history of the accounts it names; other accounts' histories are unchanged |
| `Queries.HistoryOfUnmentioned` | bank_app.py:148-152 | an account named by no record has an empty history |
| `Queries.UnknownHasNoHistory` | bank_app.py:156-164 | under the invariant, a number that is neither an account nor INITIAL has an empty history |
| `BankApp.Bank.constructor` | bank_app.py:8-29 | both tables start empty and the invariant holds |
| `BankApp.Bank.CreateAccount` | bank_app.py:55-72 | the outcome and the new tables are those of `Ledger.Create` applied to the old tables; the invariant is kept |
| `BankApp.Bank.TransferMoney` | bank_app.py:110-137 | the outcome and the new tables are those of `Ledger.Move` applied to the old tables; the invariant is kept |
| `BankApp.Bank.ViewAccount` | bank_app.py:87-96 | found exactly when the account exists, and then the shown balance is non-negative and equals the replay of the log |
| `BankApp.Bank.TransactionHistory` | bank_app.py:148-154 | exactly the records naming the account, in strictly decreasing id order; empty for a number that is neither an account nor INITIAL |

## Left out

- Streamlit pages, menu, forms and messages (bank_app.py:35-53, 75, 91-96, 131-135, 156-176) are presentation. The message each handler shows is modelled as the outcome value it returns.
- SQLite connections, cursors, commit and close are I/O. The tables are a map and a sequence, and one operation is one commit.
- The pandas dataframe and the timestamp and currency formatting are display code.
- `REAL` columns are floating point. Amounts are exact `real` numbers, so float rounding is not modelled. In the source, these exact results hold only up to rounding: the self-transfer clause of `Ledger.Move` (balances unchanged), `Ledger.TransferConservesTotal` (sum of balances unchanged), and the equations of `Ledger.Consistent` (balance equals the log replay, sum of balances equals deposits). For example, `(3389.56 - 752.22) + 752.22` evaluates to `3389.5600000000004` in doubles.
- `datetime.now()` is not modelled. Time is log position. History is ordered by log position. The source orders by wall-clock timestamp (bank_app.py:70, 128, 151), which agrees with log order only while the clock never goes back and no two timestamps are equal.
- `random.randint` is a parameter (the draw).
- Concurrency is not modelled. Two submissions that interleave between the balance read at bank_app.py:115 and the updates at bank_app.py:121-122 are outside this sequential model.
- An exception inside `create_account` leaves the connection open. That has no effect on the tables, and it is not modelled.
- `view_account` and `transaction_history` do nothing for an empty account number (bank_app.py:82, 144). That guard is UI and is not modelled.
