/**
 * The transfer engine: validates the amount, resolves both accounts, takes
 * their monitors in id order, debits and credits the shared records in place,
 * releases the monitors and then notifies sender and receiver.
 */
module Transactions {
  import opened Wrappers
  import opened Exceptions
  import opened Accounts
  import opened LockOrdering
  import Ledger

  /** The value `transfer` returns when it completes. */
  const SUCCESS: string := "SUCCESS"

  /** What a notification tells its account about a transfer. */
  datatype Notice =
    | TransferredTo(amount: real, toAccountId: string)      // sent to the source account
    | ReceivedFrom(amount: real, fromAccountId: string)     // sent to the destination account

  /** Observable steps of a transfer: monitor entry and exit, and notifications. */
  datatype Event =
    | Lock(accountId: string)
    | Unlock(accountId: string)
    | Notify(accountId: string, notice: Notice)

  /**
   * The guarded section: enter both monitors in lock order, leave them
   * innermost first. Every monitor entered is left, and the exits mirror the
   * entries.
   */
  function Guarded(order: (string, string)): (events: seq<Event>)
    ensures |events| == 4 && events[0] == Lock(order.0) && events[1] == Lock(order.1)
    ensures forall i :: 0 <= i < 2 ==> events[i].Lock? && events[3 - i] == Unlock(events[i].accountId)
  {
    [Lock(order.0), Lock(order.1), Unlock(order.1), Unlock(order.0)]
  }

  class TransactionService {
    const accountsService: AccountsService

    constructor (accountsService: AccountsService)
      ensures this.accountsService == accountsService
    {
      this.accountsService := accountsService;
    }

    /**
     * Moves the amount from one account to the other. Every rejection happens
     * before any write; on success the balances are those of
     * Ledger.TransferBalances, and the notifications follow the guarded section.
     * `events` lists the monitor entries and exits and the notifications of this
     * call, in the order they happen.
     */
    method Transfer(fromAccountId: string, toAccountId: string, amountToTransfer: Option<real>)
      returns (r: Result<string, Error>, ghost events: seq<Event>)
      requires accountsService.Valid()
      modifies accountsService.accounts.Values
      ensures accountsService.Valid()
      ensures var spec := Ledger.TransferBalances(old(accountsService.Balances()), fromAccountId, toAccountId, amountToTransfer);
        && (r.Success? <==> spec.Success?)
        && (r.Failure? ==> r.error == spec.error && accountsService.Balances() == old(accountsService.Balances()))
        && (r.Success? ==> r.value == SUCCESS && accountsService.Balances() == spec.value)
      ensures Ledger.Sum(accountsService.Balances()) == Ledger.Sum(old(accountsService.Balances()))
      ensures Ledger.NonNegative(old(accountsService.Balances())) ==> Ledger.NonNegative(accountsService.Balances())
      ensures r.Failure? && !r.error.LowBalance? ==> events == []
      ensures r == Failure(LowBalance) ==> events == Guarded(LockOrder(fromAccountId, toAccountId))
      ensures r.Success? ==>
        events == Guarded(LockOrder(fromAccountId, toAccountId))
                 + [Notify(fromAccountId, TransferredTo(amountToTransfer.value, toAccountId)),
                    Notify(toAccountId, ReceivedFrom(amountToTransfer.value, fromAccountId))]
    {
      ghost var before := accountsService.Balances();
      events := [];
      if amountToTransfer.None? || amountToTransfer.value <= 0.0 {
        return Failure(InvalidAmount), events;
      }
      var amount := amountToTransfer.value;
      assert amountToTransfer == Some(amount);

      var lookup := accountsService.GetAccount(fromAccountId);
      if lookup.Failure? {
        return Failure(lookup.error), events;
      }
      var fromAccount := lookup.value;
      lookup := accountsService.GetAccount(toAccountId);
      if lookup.Failure? {
        return Failure(lookup.error), events;
      }
      var toAccount := lookup.value;

      // Both monitors are entered in lock order and left innermost first, on
      // the rejecting path as on the committing one.
      var order := LockOrder(fromAccount.id, toAccount.id);
      var debited := DebitCredit(fromAccountId, toAccountId, amount);
      events := Guarded(order);
      if !debited {
        return Failure(LowBalance), events;
      }
      assert accountsService.Balances() == Ledger.TransferBalances(before, fromAccountId, toAccountId, amountToTransfer).value;

      // The notifications follow the release of both monitors: sender, then receiver.
      events := events + [Notify(fromAccount.id, TransferredTo(amount, toAccountId)),
                          Notify(toAccount.id, ReceivedFrom(amount, fromAccountId))];
      r := Success(SUCCESS);
    }

    /**
     * The body of the guarded section, run while both monitors are held: look
     * both records up again, reject a balance below the amount without writing,
     * otherwise debit the source and then credit the destination.
     */
    method DebitCredit(fromAccountId: string, toAccountId: string, amount: real) returns (debited: bool)
      requires accountsService.Valid()
      requires fromAccountId in accountsService.accounts && toAccountId in accountsService.accounts
      requires amount > 0.0
      modifies accountsService.accounts.Values
      ensures debited <==> old(accountsService.Balances())[fromAccountId] >= amount
      ensures !debited ==> accountsService.Balances() == old(accountsService.Balances())
      ensures debited ==>
        accountsService.Balances() ==
        Ledger.TransferBalances(old(accountsService.Balances()), fromAccountId, toAccountId, Some(amount)).value
      ensures Ledger.Sum(accountsService.Balances()) == Ledger.Sum(old(accountsService.Balances()))
      ensures Ledger.NonNegative(old(accountsService.Balances())) ==> Ledger.NonNegative(accountsService.Balances())
    {
      ghost var b := accountsService.Balances();
      var lookup := accountsService.GetAccount(fromAccountId);
      assert lookup.Success?;
      var fromAccount := lookup.value;
      lookup := accountsService.GetAccount(toAccountId);
      assert lookup.Success?;
      var toAccount := lookup.value;

      if fromAccount.balance < amount {
        return false;
      }
      assert fromAccount in accountsService.accounts.Values && toAccount in accountsService.accounts.Values;
      fromAccount.balance := fromAccount.balance - amount;
      toAccount.balance := toAccount.balance + amount;
      ghost var after := Ledger.TransferBalances(b, fromAccountId, toAccountId, Some(amount)).value;
      assert forall id :: id in accountsService.accounts ==> accountsService.accounts[id].balance == after[id];
      assert accountsService.Balances() == after;
      Ledger.TransferConservesTotal(b, fromAccountId, toAccountId, Some(amount));
      if Ledger.NonNegative(b) {
        Ledger.TransferKeepsNonNegative(b, fromAccountId, toAccountId, Some(amount));
      }
      debited := true;
    }
  }
}
