/**
 * The account store: account records that callers share and mutate in place,
 * and the service that creates them and looks them up by id.
 */
module Accounts {
  import opened Wrappers
  import opened Exceptions

  /** An account record. Its id never changes; its balance is updated in place. */
  class Account {
    const id: string
    var balance: real

    constructor (id: string, balance: real)
      ensures this.id == id && this.balance == balance
    {
      this.id := id;
      this.balance := balance;
    }
  }

  /** The service over the repository's id -> record mapping. */
  class AccountsService {
    var accounts: map<string, Account>

    /** Every record is stored under its own id, so distinct ids name distinct records. */
    ghost predicate Valid()
      reads this
    {
      forall id :: id in accounts ==> accounts[id].id == id
    }

    /** The balance of every stored account, by id. */
    ghost function Balances(): map<string, real>
      reads this, accounts.Values
    {
      map id | id in accounts :: accounts[id].balance
    }

    constructor ()
      ensures Valid() && accounts == map[]
    {
      accounts := map[];
    }

    /**
     * Stores `account` under its id. The record itself is stored, not a copy,
     * so later writes through the caller's reference are seen by every lookup.
     */
    method CreateAccount(account: Account)
      requires Valid()
      modifies this
      ensures Valid()
      ensures account.id in accounts
      ensures old(account.id !in accounts) ==> accounts == old(accounts)[account.id := account]
      ensures old(account.id in accounts) ==> accounts == old(accounts)
    {
      if account.id !in accounts {
        accounts := accounts[account.id := account];
      }
    }

    /**
     * Looks up the live record stored under `accountId`; an absent id is
     * reported as ResourceNotFound. Nothing is modified, so two lookups of the
     * same id return the same record.
     */
    function GetAccount(accountId: string): (r: Result<Account, Error>)
      requires Valid()
      reads this
      ensures r.Success? <==> accountId in accounts
      ensures r.Success? ==> r.value == accounts[accountId] && r.value.id == accountId
      ensures r.Failure? ==> r.error == ResourceNotFound(accountId)
    {
      if accountId in accounts then Success(accounts[accountId])
      else Failure(ResourceNotFound(accountId))
    }
  }
}
