# Funds transfer engine: a Dafny model

This project models the core of a small Spring service that moves money
between accounts held in memory. There are two parts:

- the **account service** (`AccountsService`). It stores account records by
  id and hands out the live, shared record on lookup. An unknown id raises
  `ResourceNotFoundException`.
- the **transfer engine** (`TransactionService.transfer`). It runs these steps
  in order:
  1. Reject a missing, zero or negative amount (`InvalidAmountException`).
  2. Resolve both ids.
  3. Pick a lock order from the two ids alone: the larger id under
     `String.compareTo` is locked first.
  4. Inside both monitors, look the records up again and reject a balance
     below the amount (`LowBalanceException`).
  5. Otherwise debit the source record in place, then credit the destination
     record in place.
  6. After leaving the monitors, notify the sender and then the receiver, and
     return `"SUCCESS"`.

The model has these parts:

- `Accounts.Account` is a class with an immutable `id` and a mutable
  `balance`.
- `Accounts.AccountsService` is a class over a `map<string, Account>`. Records
  are shared references, so a balance set through a caller's reference is the
  one the transfer reads, and the transfer's writes show through it.
- `Ledger.TransferBalances` is a pure reference definition of one transfer
  over the map of balances. The conservation, non-negativity, self-transfer
  and reversal lemmas are proved about it.
- `Transactions.TransactionService.Transfer` updates the records in place. It
  is proved against `Ledger.TransferBalances`.
  - It returns, as a ghost value, the events of the call: monitor entries and
    exits, then notifications.
  - The guarded section is the method `DebitCredit`. It runs as one atomic
    step.
- `LockOrdering` models Java's `String.compareTo` and the lock order.
  - It proves that the order depends only on the unordered pair of ids.
  - It proves that along any chain of transfers, each waiting for a lock the
    next one holds, the held locks strictly descend. So no wait-for cycle can
    close.
- `Scenarios` replays the single-threaded cases of the service's test suite as
  client methods with exact expected results.

Balances and amounts are `real`. `BigDecimal` arithmetic is exact, and its
`compareTo` ignores scale, so exact rationals behave the same way here. A
`null` amount is `None` of an `Option<real>`.

On the self-transfer case the model follows the code. When source and
destination are the same id:
- the same monitor is entered twice (Java monitors are reentrant), so the
  events show `Lock(id), Lock(id)`;
- the credit reads the balance the debit left, so a covered amount leaves the
  balance unchanged;
- an amount above the balance is still rejected with `LowBalance`.

## Model

| member | source | states |
|---|---|---|
| Accounts.AccountsService.constructor | src/main/java/com/db/awmd/challenge/service/AccountsService.java:20-23 | a new service starts over an empty id-to-record mapping, which satisfies the store invariant |
| Accounts.AccountsService.CreateAccount | src/main/java/com/db/awmd/challenge/service/AccountsService.java:25-27 | afterwards the id is stored. For a new id, the record itself (not a copy) is added under its id and nothing else changes. The store invariant (each record lives under its own id) is kept |
| Accounts.AccountsService.GetAccount | src/main/java/com/db/awmd/challenge/service/AccountsService.java:29-35 | succeeds exactly when the id is stored, and then yields the live stored record, whose id is the one asked for. An absent id gives ResourceNotFound for that id. It only reads the mapping and changes nothing, so repeated lookups give the same record |
| LockOrdering.CompareTo | src/main/java/com/db/awmd/challenge/service/TransactionService.java:51-52 | Java's String.compareTo: when one string is a prefix of the other, the result is the difference of the lengths (the other case is CompareToFirstDifference) |
| LockOrdering.CompareToFirstDifference | src/main/java/com/db/awmd/challenge/service/TransactionService.java:51-52 | Java's String.compareTo: at the first index where the strings differ, the result is the difference of those two characters |
| LockOrdering.CompareToAntisymmetric | src/main/java/com/db/awmd/challenge/service/TransactionService.java:51-53 | swapping the arguments of String.compareTo negates the result |
| LockOrdering.CompareToZeroIffEqual | src/main/java/com/db/awmd/challenge/service/TransactionService.java:51-53 | String.compareTo is zero exactly for equal strings |
| LockOrdering.CompareToTransitive | src/main/java/com/db/awmd/challenge/service/TransactionService.java:51-53 | "compares greater" is transitive, so with the two lemmas above the id order is a strict total order |
| LockOrdering.LockOrder | src/main/java/com/db/awmd/challenge/service/TransactionService.java:51-53 | the (first, second) lock pair holds exactly the two ids, and the first never compares smaller than the second |
| LockOrdering.LockOrderIgnoresDirection | src/main/java/com/db/awmd/challenge/service/TransactionService.java:51-56 | transfer(a, b) and transfer(b, a) take the locks in the same order, for all ids including a = b |
| LockOrdering.LockOrderStrict | src/main/java/com/db/awmd/challenge/service/TransactionService.java:51-53 | for distinct ids the first lock compares strictly greater than the second |
| LockOrdering.WaitChainDescends | src/main/java/com/db/awmd/challenge/service/TransactionService.java:49-56 | take a chain of transfers, each holding its first lock and waiting for its second, which the next one holds. The held locks strictly descend along it, so the last never waits for the first one's lock and no deadlock cycle forms |
| Ledger.TransferBalances | src/main/java/com/db/awmd/challenge/service/TransactionService.java:42-66 | all four checks come in source order. A bad amount gives InvalidAmount. Then an unknown source id, and then an unknown destination id, gives ResourceNotFound of that id. Then a source balance below the amount gives LowBalance. Success happens exactly when the amount is valid, both ids exist and the source covers the amount. On success the set of account ids is unchanged and every other balance is untouched |
| Ledger.TransferMovesAmount | src/main/java/com/db/awmd/challenge/service/TransactionService.java:65-66 | between distinct accounts the source ends at old minus amount and the destination at old plus amount |
| Ledger.SelfTransferUnchanged | src/main/java/com/db/awmd/challenge/service/TransactionService.java:51-66 | a transfer from an account to itself succeeds exactly when the balance covers the amount, and then changes no balance |
| Ledger.TransferConservesTotal | src/main/java/com/db/awmd/challenge/service/TransactionService.java:65-66 | a successful transfer keeps the sum of all balances unchanged |
| Ledger.TransferKeepsNonNegative | src/main/java/com/db/awmd/challenge/service/TransactionService.java:61-66 | if every balance was non-negative before a successful transfer, every balance is non-negative after |
| Ledger.TransferReversed | src/main/java/com/db/awmd/challenge/service/TransactionService.java:61-66 | over non-negative balances, sending the same amount back succeeds and restores every balance |
| Transactions.Guarded | src/main/java/com/db/awmd/challenge/service/TransactionService.java:55-71 | the nested monitors: both are entered in the given lock order, and each one entered is left, the exits mirroring the entries (innermost first) |
| Transactions.TransactionService.Transfer | src/main/java/com/db/awmd/challenge/service/TransactionService.java:38-80 | the result and the new balances are those of Ledger.TransferBalances on the old balances. Every failure leaves all balances as they were; success returns "SUCCESS". The total is conserved and non-negativity kept. The events are: none for a bad amount or an unknown id; on LowBalance, lock in LockOrder order and unlock innermost first; on success, the same, then a notice to the sender and then to the receiver |
| Transactions.TransactionService.DebitCredit | src/main/java/com/db/awmd/challenge/service/TransactionService.java:57-66 | the guarded section debits exactly when the source's balance covers the amount. Otherwise it writes nothing; if it debits, the balances become those of Ledger.TransferBalances. Either way the total is conserved |
| Scenarios.Fixture | src/test/java/com/db/awmd/challenge/TransactionServiceTest.java:46-59 | two fresh accounts under distinct ids are stored, and the caller's references are the stored records |
| Scenarios.InvalidAmountScenario | src/test/java/com/db/awmd/challenge/TransactionServiceTest.java:61-71 | a null, zero or negative amount fails with InvalidAmount |
| Scenarios.WrongFromAccountScenario | src/test/java/com/db/awmd/challenge/TransactionServiceTest.java:73-77 | an unknown source id fails with ResourceNotFound for that id |
| Scenarios.WrongToAccountScenario | src/test/java/com/db/awmd/challenge/TransactionServiceTest.java:79-83 | an unknown destination id fails with ResourceNotFound for that id |
| Scenarios.ValidTransferScenario | src/test/java/com/db/awmd/challenge/TransactionServiceTest.java:85-106 | 10.50 from 100 to 10 succeeds, and the caller's own references then read 89.50 and 20.50 |
| Scenarios.LowBalanceScenario | src/test/java/com/db/awmd/challenge/TransactionServiceTest.java:108-131 | 100.50 from a balance of 100 fails with LowBalance, and both balances stay 100 and 10 |
| Scenarios.CreateThenGetScenario | src/main/java/com/db/awmd/challenge/service/AccountsService.java:25-35 | after createAccount, getAccount of its id succeeds with that very record |
| Scenarios.SelfTransferScenario | src/main/java/com/db/awmd/challenge/service/TransactionService.java:51-66 | a covered self-transfer succeeds and leaves the balance at 100. An uncovered one fails with LowBalance |

## Left out

- Threads and `synchronized` (TransactionService.java:55-71) are not modelled as concurrency. The lock order is a pure function of the ids. The guarded section is one atomic method, and monitor entries and exits are ghost events. Mutual exclusion between threads and freedom from deadlock as a liveness property cannot be stated in this sequential setting. `WaitChainDescends` states the ordering argument behind it.
- The multi-threaded tests (TransactionServiceTest.java:133-285) are not modelled. They check sums while threads run unjoined. Conservation is proved for each sequential transfer.
- Logging (TransactionService.java:39-40, 68-69) is not modelled.
- Transactions.TransactionService.Transfer: notifications are assumed not to throw. In the code (TransactionService.java:74-77) an exception from the first notification would reach the caller after the balances were already moved, and the receiver's notice would be skipped. The model's "every failure leaves all balances as they were" holds only under this assumption.
- Notification delivery is not modelled. `NotificationService` is not part of this model. Each notification is recorded as a ghost event holding the account id, the amount and the counterparty id. The message text ("Amount ... is transferred to account ...") and the formatting of `BigDecimal` are not modelled.
- The exception message texts are not modelled; only the exception kind (and, for a missing account, the id) is.
- The unused `lock` field and the commented-out `transfer1` (TransactionService.java:29, 82-118) are not modelled.
- The HTTP controller, and its mapping of exceptions to status 400, are not modelled.
- `AccountsRepository` is not part of this model, and neither is its `clearAccounts`. The mapping is a `map`.
- Accounts.AccountsService.CreateAccount: on an id that is already stored, the mapping is left as it is and no duplicate-id error is reported. The repository's behaviour for duplicates is not available.
- `Account` (the domain class) is not part of this model. A record is an immutable id and a balance that is set directly.
- Null account ids are not modelled; ids are strings.
- LockOrdering.CompareTo compares Dafny characters, which are Unicode scalar values. Java compares UTF-16 code units. The two orders agree except on strings holding characters outside the Basic Multilingual Plane.
- `BigDecimal` precision and scale are not modelled; amounts and balances are exact reals.
