# Wallet balance engine, modelled in Dafny

The system keeps a table of wallets, each a unique id with a balance, and
offers four things: create a wallet (balance 0), deposit into it, withdraw
from it (refused when the balance is too small), and read its balance. A
wallet service does this by loading the wallet entity, checking it,
overwriting its amount in place and writing it back when the transaction
commits. The wallet repository also carries two single-statement updates,
an atomic deposit and an atomic withdrawal, each returning the number of
rows it changed.

Money is counted in whole cents (`int`): the balance column holds decimals
with two digits after the point, so 200.00 is 20000.

Files and modules:

- `wallet.dfy`, module `WalletModel`: wallet ids, the table type, the
  operation kinds, the request and response values, the two business errors,
  and the `Wallet` entity class (immutable id, mutable amount).
- `repository.dfy`, module `Repository`: the UPDATE statements as SQL
  evaluates them (the WHERE clause selects a set of rows, the SET clause
  adjusts them, the count is the size of the set), and the class
  `WalletRepository` holding the table: `FindById`, `SaveNew`, `Flush`,
  `Deposit`, `Withdraw`.
- `service.dfy`, module `Service`: `Operate`, the specification of one wallet
  operation on the table; `Run`, a serial history; the class `WalletService`
  whose methods are proved to agree with `Operate`; lemmas about histories.
- `interleaving.dfy`, module `Interleaving`: the service operation split at
  its two store accesses, what interleaving those halves does, and the
  single-statement updates taken in any order.
- `scenarios.dfy`, module `Scenarios`: the project's tests (`WalletControllerTest`, `WalletConcurrencyTest`) replayed as
  client methods, one call at a time.

What the code does, which the model follows:

- The wallet entity has no `@Version` field (src/main/java/ru/example/itktest/model/Wallet.java:22-46),
  so there is no optimistic locking and no compare-and-swap; `@Retryable`
  (src/main/java/ru/example/itktest/service/WalletService.java:57) names an
  optimistic-lock exception that nothing raises.
- `walletOperation` does not call the repository's atomic `deposit` and
  `withdraw`; it reads the wallet, changes the entity and lets the commit
  write it. The atomic statements are modelled on their own, and a service
  path built on them (`WalletOperationAtomic`, which checks existence first
  when a withdrawal touches no row) is given beside the real one.
- `getBalance` returns a `WalletBalanceDto`, which holds only `amount`
  (src/main/java/ru/example/itktest/dto/WalletBalanceDto.java:15).
- The request amount is `@PositiveOrZero`, so a zero amount is accepted
  (src/main/java/ru/example/itktest/dto/WalletOperationDto.java:32).
- The controller calls `walletService.getAll()`
  (src/main/java/ru/example/itktest/controller/WalletController.java:62),
  but the service defines no such method, so there is no listing operation
  to model.

## Model

| member | source | states |
|---|---|---|
| `Repository.SelectedIsTargetRow` | src/main/java/ru/example/itktest/repository/WalletRepository.java:24-45 | a WHERE clause fixing the id selects exactly the row with that id when it exists and satisfies the clause, otherwise no row; so at most one row, because the id is the key |
| `Repository.Execute` | src/main/java/ru/example/itktest/repository/WalletRepository.java:24-45 | an UPDATE touches 0 or 1 rows; it touches one exactly when the row exists and satisfies the clause, and then only that row gains the delta; touching none leaves the table as it was |
| `Repository.FreshIdExists` | src/main/java/ru/example/itktest/model/Wallet.java:24-26 | however many wallets exist, some id is unused, so the generator can always give a new wallet an id of its own |
| `Repository.WalletRepository.FindById` | src/main/java/ru/example/itktest/repository/WalletRepository.java:16 | finds a wallet exactly when its id is in the table, returning a new entity with that id and the stored amount; changes nothing |
| `Repository.WalletRepository.SaveNew` | src/main/java/ru/example/itktest/service/WalletService.java:42-45 | saving a new wallet inserts one row under an id not previously present, with the given amount; every other row is unchanged |
| `Repository.WalletRepository.Flush` | src/main/java/ru/example/itktest/service/WalletService.java:97 | at commit the changed entity's amount becomes its row's balance; no other row changes |
| `Repository.WalletRepository.Deposit` | src/main/java/ru/example/itktest/repository/WalletRepository.java:24-30 | returns 1 and adds the amount to that wallet when the id exists; returns 0 and changes nothing otherwise; no other row changes; balances stay non-negative for a non-negative amount |
| `Repository.WalletRepository.Withdraw` | src/main/java/ru/example/itktest/repository/WalletRepository.java:38-45 | returns 1 and subtracts the amount exactly when the id exists and its balance is at least the amount; returns 0 and changes nothing otherwise; the touched balance is never below zero |
| `Repository.WithdrawCountIsAmbiguous` | src/main/java/ru/example/itktest/repository/WalletRepository.java:38-45 | for every table, a missing wallet and a wallet whose balance is below the amount both give count 0 and an unchanged table, so the count cannot tell them apart |
| `Service.Operate` | src/main/java/ru/example/itktest/service/WalletService.java:58-97 | missing id: WalletNotFound, table unchanged; withdrawal above the balance: InsufficientFunds with id, balance and amount, table unchanged; otherwise deposit adds, withdrawal subtracts (an equal withdrawal leaves exactly 0) and the result reports the new balance; only the target wallet changes; no wallet is created or removed; a non-negative amount keeps all balances non-negative |
| `Service.Run` | src/main/java/ru/example/itktest/service/WalletService.java:58-69 | a serial history yields one result per operation and keeps the set of wallets |
| `Service.RunPreservesNonNegative` | src/main/java/ru/example/itktest/service/WalletService.java:86-97 | any serial history of operations with non-negative amounts keeps every balance non-negative |
| `Service.RunLeavesOtherWalletsAlone` | src/main/java/ru/example/itktest/service/WalletService.java:62-97 | operations that name other wallets never change this wallet's balance |
| `Service.SerialDeposits` | src/test/java/ru/example/itktest/WalletConcurrencyTest.java:53-113 | n serial deposits of a on an existing wallet all succeed, the i-th reporting balance + (i+1)·a, and the wallet ends n·a higher with every other wallet unchanged |
| `Service.TwoHundredDepositsOfOne` | src/test/java/ru/example/itktest/WalletConcurrencyTest.java:62-112 | 200 deposits of 1.00 on a wallet at 0 all succeed and leave 200.00 |
| `Service.DepositRefuseDrain` | src/main/java/ru/example/itktest/service/WalletService.java:86-97 | from 0: deposit 100.00 gives 100.00, withdrawing 150.00 is refused with balance 100.00 kept, withdrawing 100.00 leaves 0 |
| `Service.WalletService.CreateWallet` | src/main/java/ru/example/itktest/service/WalletService.java:38-49 | the new wallet has balance 0 and an id no stored wallet had; exactly that row is added and every other wallet keeps its balance |
| `Service.WalletService.WalletOperation` | src/main/java/ru/example/itktest/service/WalletService.java:56-69 | its result and the table it leaves are exactly `Operate` on the table before the call |
| `Service.WalletService.ApplyOperation` | src/main/java/ru/example/itktest/service/WalletService.java:86-98 | a withdrawal above the entity's amount fails with InsufficientFunds(id, amount held, amount asked) and leaves the entity unchanged; otherwise the entity's amount is overwritten with the sum or the difference, and a withdrawal never leaves it negative |
| `Service.WalletService.GetBalance` | src/main/java/ru/example/itktest/service/WalletService.java:76-84 | returns the stored amount exactly when the wallet exists, WalletNotFound otherwise; changes nothing, so two reads with no change between agree |
| `Service.WalletService.WalletOperationAtomic` | src/main/java/ru/example/itktest/repository/WalletRepository.java:24-45 | the same operation through the single-statement updates plus a re-read gives exactly `Operate`'s result and table |
| `Interleaving.Load` | src/main/java/ru/example/itktest/service/WalletService.java:62-63 | the lookup half of a transaction records the stored balance exactly when the wallet exists |
| `Interleaving.Commit` | src/main/java/ru/example/itktest/service/WalletService.java:86-97 | the second half fails with WalletNotFound when nothing was loaded; otherwise it refuses exactly when a withdrawal exceeds the loaded balance, with InsufficientFunds(id, loaded balance, amount) and the table unchanged, and on success reports the balance computed from the loaded one and writes it, unless it equals the loaded one (an unchanged entity is not written) |
| `Interleaving.LoadThenCommitIsOperate` | src/main/java/ru/example/itktest/service/WalletService.java:62-97 | the two halves with nothing in between are one `Operate` step |
| `Interleaving.InterleavedDepositsLoseOne` | src/main/java/ru/example/itktest/service/WalletService.java:56-69 | two deposits that both load before either commits both succeed but add one amount, where the serial history adds two |
| `Interleaving.InterleavedWithdrawalsBothSucceed` | src/main/java/ru/example/itktest/service/WalletService.java:86-97 | two withdrawals of a from a balance in [a, 2a), loaded before either commits, both succeed and debit only one a |
| `Interleaving.SerialWithdrawalsRefuseSecond` | src/main/java/ru/example/itktest/service/WalletService.java:87-89 | taken serially, the second of those withdrawals is refused with the balance the first left |
| `Interleaving.ExecuteAll` | src/main/java/ru/example/itktest/repository/WalletRepository.java:24-45 | a sequence of statements keeps the set of wallets and touches at most one row per statement |
| `Interleaving.AtomicDeposits` | src/main/java/ru/example/itktest/repository/WalletRepository.java:24-30 | n deposit statements of a on an existing wallet, in whatever order they reach the store, each touch one row and add n·a |
| `Interleaving.AtomicWithdrawals` | src/main/java/ru/example/itktest/repository/WalletRepository.java:38-45 | m withdrawal statements of a ≥ 0 against a non-negative balance b: the balance drops by a for each one that succeeds and never goes below 0, and fewer than m succeed only when less than a is left; so exactly min(m, b / a) succeed for a > 0, and all m for a = 0 |
| `Interleaving.ZeroWithdrawals` | src/main/java/ru/example/itktest/repository/WalletRepository.java:38-45 | withdrawal statements of 0 against a non-negative balance each touch the row and leave the table as it was |
| `Scenarios.DepositRepeatedly` | src/test/java/ru/example/itktest/WalletConcurrencyTest.java:74-96 | issued one after another, n deposits on an existing wallet report no errors and add n·amount; on a missing wallet all n fail and nothing changes |
| `Scenarios.ConcurrentDepositsSerially` | src/test/java/ru/example/itktest/WalletConcurrencyTest.java:53-113 | a wallet saved at 0 and given 200 deposits of 1.00 through the service reports no errors and a balance of 200.00 |
| `Scenarios.EndpointScenarios` | src/test/java/ru/example/itktest/WalletControllerTest.java:56-121 | a new wallet reports 0; 100.00 deposited on 0 reports 100.00; 100.00 withdrawn from 10.00 is refused as insufficient funds with balance 10.00 and request 100.00; an unknown id is not found; two balance reads in a row agree |

## Findings

| source | as written | input that shows it | evidently intended | confidence | as-written member | corrected member |
|---|---|---|---|---|---|---|
| src/main/java/ru/example/itktest/service/WalletService.java:56-69 | the operation loads the wallet, computes the new balance in memory and writes that value back at commit; no version column or row lock guards the gap, so no optimistic-lock failure can arise for the retry to catch | two deposits of 1.00 on a wallet at 0.00 whose loads both happen before either commits: both succeed and the balance is 1.00, not 2.00 | every committed deposit counted exactly once, as the concurrent test expects (200 deposits give 200.00); the repository's single-statement deposit gives this, proved in `Interleaving.AtomicDeposits` | medium, not executed (depends on the store's default read-committed isolation) | `Interleaving.InterleavedDepositsLoseOne` | `Service.WalletService.WalletOperationAtomic` |
| src/main/java/ru/example/itktest/service/WalletService.java:86-97 | the sufficient-funds check runs on the balance loaded at the start of the transaction, which another transaction may already have lowered | two withdrawals of 80.00 from 100.00 loaded before either commits: both succeed, 160.00 is paid out and the balance reads 20.00 | a withdrawal admitted only against the balance at the moment it is applied; the repository's guarded withdrawal statement gives this, proved in `Interleaving.AtomicWithdrawals` (exactly one of the two succeeds) | medium, not executed | `Interleaving.InterleavedWithdrawalsBothSucceed` | `Service.WalletService.WalletOperationAtomic` |

Taken one call at a time the two paths agree: `WalletOperation` and
`WalletOperationAtomic` carry the same contract, equality with `Operate`.
So every serial property above holds for both, and the scenarios, which
replay the tests serially, use the service's own `WalletOperation`.

## Left out

- The HTTP layer (controllers, status codes, error responses): routing and translation only.
- Request validation and mapping to response objects: the model takes the request values as given; the rule that an amount is "positive or zero" appears only as a premise of the non-negativity properties, because the service itself does not check it.
- Transactions and retries: each service call is one atomic step that changes nothing when it fails; the commit's write-back is the explicit `Flush` call at the end of `WalletOperation`.
- Creation and update timestamps: they depend on the clock.
- Id generation: ids are natural numbers, not 128-bit UUIDs, and the generator is any choice of an id not already stored.
- Rounding to two decimal places: amounts are whole cents, so an amount with more digits after the point, which the column would round on write, cannot be expressed.
- The column's precision of 19 digits: the store rejects a balance of 10^17 or more (in units), an infrastructure failure; the model's balances are unbounded.
- General concurrent schedules of the service's operation: only the two-transaction interleavings in `Interleaving` are modelled; histories of the single-statement updates are modelled as sequences of whole statements.
- Storage failures (an unreachable store, a failed write): no such outcome is modelled.
- Deleting wallets: the repository inherits delete methods from JpaRepository (src/main/java/ru/example/itktest/repository/WalletRepository.java:15), but no code path calls them, so `Flush` may assume the loaded wallet's row still exists.
