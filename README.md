# Fine-grained bank ledger

A model of `BankImpl`, a bank of `n` accounts numbered `0..n-1`. Each account
holds one integer amount and owns its own lock. The bank offers:

- the number of accounts;
- the amount of one account;
- the total amount of all accounts;
- deposit into one account;
- withdrawal from one account;
- transfer between two accounts.

The operations check their arguments and throw `IllegalArgumentException` for
a non-positive amount or for a transfer from an account to itself. They throw
`IllegalStateException("Underflow")` when an amount would drop below 0, and
`IllegalStateException("Overflow")` when it would rise above `MAX_AMOUNT`.
Otherwise they update the amounts in place.

Files:

- `locks.dfy` (module `Locks`): the lock protocol as traces of
  `Lock(i)`/`Unlock(i)` events. It holds the whole-ledger trace and the facts
  about acquisition order.
- `ledger.dfy` (module `Ledger`): the error kinds and `MAX_AMOUNT`. It defines
  each balance-changing operation as a function `DepositStep`, `WithdrawStep`
  or `TransferStep`. Each maps the amounts before the call to the outcome, the
  amounts after, and the lock events. The lemmas about these functions are
  the bank's promises.
- `bank.dfy` (module `BankImpl`): class `Bank` with the array of amounts and
  one method per operation of the source. `Deposit`, `Withdraw` and
  `Transfer` update the array in place; each is proved equal to its `Ledger`
  function and keeps the invariant `Valid()`: every amount is in
  `0..MAX_AMOUNT`. The queries change nothing: `GetNumberOfAccounts` returns
  the array length, `GetAmount` one amount under its account's lock, and
  `GetTotalAmount` the `Sum` of all amounts, with the trace `TotalLocks` of
  module `Locks`.
  `TwoAccountScenario` is a client of the class: on two accounts it deposits
  100 and 50, transfers 30, reads the total 150, and then makes an
  over-withdrawal, an over-deposit and a self-transfer, which are refused.

Exceptions become `Outcome.Fail(InvalidArgument | Underflow | Overflow)`.
Each method returns its lock events as a ghost out-parameter. Threads are
not modelled.

The checks follow the code exactly:

- `withdraw` underflows when balance minus amount is below 0.
- `transfer` underflows on `amount > from.amount`.
- Both treat withdrawing exactly the whole balance as legal.

`getTotalAmount` reads each account right after locking it and keeps every
lock until all accounts are read. The trace follows this lock order; reads
are not events in the trace.

## Model

| member | source | states |
|---|---|---|
| BankImpl.Bank.constructor | src/main/java/ru/ifmo/mt/fgb/BankImpl.java:23-28 | a fresh array of exactly `n` accounts, every amount 0, so the bounds invariant holds from the start |
| BankImpl.Bank.GetNumberOfAccounts | src/main/java/ru/ifmo/mt/fgb/BankImpl.java:34-35 | returns the number of accounts, which is the `n` given at construction |
| BankImpl.Bank.GetAmount | src/main/java/ru/ifmo/mt/fgb/BankImpl.java:42-47 | returns account `index`'s amount (in `0..MAX_AMOUNT` under the invariant), changes nothing, and locks then unlocks that one account |
| BankImpl.Bank.GetTotalAmount | src/main/java/ru/ifmo/mt/fgb/BankImpl.java:54-64 | returns the sum of all amounts, changes nothing; its lock trace is every account locked in ascending order, then every account unlocked in descending order |
| BankImpl.Bank.Deposit | src/main/java/ru/ifmo/mt/fgb/BankImpl.java:71-81 | outcome, new amounts and lock events are exactly `DepositStep` of the old amounts; keeps every amount in range; the total grows by `amount` on success and is unchanged on failure |
| BankImpl.Bank.Withdraw | src/main/java/ru/ifmo/mt/fgb/BankImpl.java:88-98 | outcome, new amounts and lock events are exactly `WithdrawStep` of the old amounts; keeps every amount in range; the total shrinks by `amount` on success and is unchanged on failure |
| BankImpl.Bank.Transfer | src/main/java/ru/ifmo/mt/fgb/BankImpl.java:105-136 | outcome, new amounts and lock events are exactly `TransferStep` of the old amounts; keeps every amount in range; the total never changes |
| Ledger.DepositOutcome | src/main/java/ru/ifmo/mt/fgb/BankImpl.java:71-81 | `InvalidArgument` iff `amount <= 0`; `Overflow` iff a positive amount exceeds `MAX_AMOUNT` or would take the balance past it; never `Underflow`; a failure changes nothing; a success adds exactly `amount` to that one account and returns the new balance |
| Ledger.DepositInvariants | src/main/java/ru/ifmo/mt/fgb/BankImpl.java:76-78 | from in-range amounts a deposit leaves every amount in `0..MAX_AMOUNT`, and the total grows by exactly `amount` on success and not at all on failure |
| Ledger.WithdrawOutcome | src/main/java/ru/ifmo/mt/fgb/BankImpl.java:88-98 | `InvalidArgument` iff `amount <= 0`; `Underflow` iff a positive amount exceeds the balance; never `Overflow`; a failure changes nothing; a success subtracts exactly `amount` from that one account and returns the new balance |
| Ledger.WithdrawWholeBalance | src/main/java/ru/ifmo/mt/fgb/BankImpl.java:93-95 | withdrawing exactly a positive balance succeeds, returns 0 and leaves the account at 0 |
| Ledger.WithdrawInvariants | src/main/java/ru/ifmo/mt/fgb/BankImpl.java:93-95 | from in-range amounts a withdrawal leaves every amount in `0..MAX_AMOUNT`, and the total shrinks by exactly `amount` on success and not at all on failure |
| Ledger.DepositThenWithdraw | src/main/java/ru/ifmo/mt/fgb/BankImpl.java:71-98 | a successful deposit followed by a withdrawal of the same amount from the same account succeeds, returns the original balance and restores every amount |
| Ledger.TransferOutcome | src/main/java/ru/ifmo/mt/fgb/BankImpl.java:105-127 | the checks in source order: `InvalidArgument` iff `amount <= 0` or the indices are equal; then `Underflow` iff the amount exceeds the source balance, which wins over a simultaneous overflow; then `Overflow`; a failure changes nothing; a success debits the source and credits the destination by `amount`, other accounts untouched |
| Ledger.TransferInvariants | src/main/java/ru/ifmo/mt/fgb/BankImpl.java:122-127 | from in-range amounts a transfer leaves every amount in `0..MAX_AMOUNT` and leaves the total unchanged, whatever its outcome |
| Ledger.TransferThenTransferBack | src/main/java/ru/ifmo/mt/fgb/BankImpl.java:105-127 | a successful transfer followed by the same amount transferred back succeeds and restores every amount |
| Ledger.TransferLockOrder | src/main/java/ru/ifmo/mt/fgb/BankImpl.java:114-135 | a transfer refused for its arguments locks nothing; any other transfer locks `min(from, to)` then `max(from, to)` (ascending), whatever the direction; a successful one unlocks exactly the two accounts it locked |
| Ledger.OppositeTransfersLockAlike | src/main/java/ru/ifmo/mt/fgb/BankImpl.java:114-120 | `transfer(a, b)` and `transfer(b, a)`, from any two states, lock the two accounts in the same order, so they never lock them in opposite orders |
| Ledger.TotalAndTransferLockAlike | src/main/java/ru/ifmo/mt/fgb/BankImpl.java:114-120 | the whole-ledger sum of `getTotalAmount` (lines 56-62) and any transfer, from any state, never lock some pair of accounts in opposite orders |
| Locks.TotalLockOrder | src/main/java/ru/ifmo/mt/fgb/BankImpl.java:56-62 | the whole-ledger sum over `n` accounts locks `0, 1, ..., n-1` in this order, an ascending sequence, and then unlocks `n-1, ..., 0` |
| Locks.NoOppositeOrders | src/main/java/ru/ifmo/mt/fgb/BankImpl.java:114-120 | two lock orders that are both ascending never take some pair of accounts in opposite orders; this is the sequential fact behind deadlock avoidance |

## Left out

- Threads, `ReentrantLock` and blocking are not modelled. Locks appear only
  as the ordered trace of lock and unlock calls each operation makes.
  Deadlock freedom under real concurrency, linearizability and atomicity as
  seen by other threads are out of scope. What is modelled is that every
  multi-account lock order is ascending, and that the two directions of a
  transfer agree.
- The Overflow and Underflow paths of `deposit`, `withdraw` and `transfer`
  throw while holding the locks they took and never unlock; their trace ends
  with those Lock events and has no Unlock. The InvalidArgument paths throw
  before locking; their trace is empty. The model makes no claim about what
  a leaked lock does to other threads.
- Amounts are unbounded integers kept in `0..MAX_AMOUNT` by the invariant.
  The mix of Java `int` and `long` is not modelled: the field `amount` is an
  `int`, and `+=`/`-=` with a `long` narrows implicitly. When `MAX_AMOUNT` is
  at most `Integer.MAX_VALUE`, as with 1000, the narrowing never changes a
  value. With a larger `MAX_AMOUNT`, `deposit(i, 2^31)` on an empty account
  passes the overflow check and stores a wrapped negative `int`. The bounds
  invariant proved here describes the source only under the first condition.
- `MAX_AMOUNT` is declared in the `Bank` interface, which is not part of
  this model. It is fixed at 1000, an illustrative value. No lemma depends on
  the value; only `TwoAccountScenario` in `bank.dfy` uses it.
- Index bounds are never checked by the source. They are preconditions,
  not error outcomes.
- BankImpl.Bank.constructor: takes `n` as a natural number. A negative `n`,
  for which Java's array allocation throws, is not modelled.
- Each `Account` object is represented by its amount alone, as one element of
  an `int` array. Account object identity is not captured: the source never
  shares or reassigns accounts.
- The unused `com.sun.deploy.util.SyncAccess` import has no behaviour.
