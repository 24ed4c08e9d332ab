/**
 * The single-threaded scenarios of the service's test suite, as clients of
 * the store and the transfer engine. Each returns what the test observes,
 * reading balances through the test's own references to the records.
 */
module Scenarios {
  import opened Wrappers
  import opened Exceptions
  import opened Accounts
  import opened Transactions

  /** The fixture: two fresh accounts stored under distinct ids, and a service over them. */
  method Fixture(fromBalance: real, toBalance: real)
    returns (service: TransactionService, fromAccount: Account, toAccount: Account)
    ensures fresh(service) && fresh(fromAccount) && fresh(toAccount) && fresh(service.accountsService)
    ensures service.accountsService.Valid()
    ensures service.accountsService.accounts == map["Id-1" := fromAccount, "Id-2" := toAccount]
    ensures fromAccount.id == "Id-1" && toAccount.id == "Id-2"
    ensures fromAccount.balance == fromBalance && toAccount.balance == toBalance
  {
    var accounts := new AccountsService();
    fromAccount := new Account("Id-1", 0.0);
    accounts.CreateAccount(fromAccount);
    toAccount := new Account("Id-2", 0.0);
    accounts.CreateAccount(toAccount);
    service := new TransactionService(accounts);
    fromAccount.balance := fromBalance;
    toAccount.balance := toBalance;
  }

  /** A missing, negative or zero amount is rejected. */
  method InvalidAmountScenario(amount: Option<real>) returns (r: Result<string, Error>)
    requires amount.None? || amount.value <= 0.0
    ensures r == Failure(InvalidAmount)
  {
    var service, fromAccount, toAccount := Fixture(100.0, 10.0);
    ghost var events;
    r, events := service.Transfer(fromAccount.id, toAccount.id, amount);
  }

  /** An unknown source id is reported as not found. */
  method WrongFromAccountScenario() returns (r: Result<string, Error>)
    ensures r == Failure(ResourceNotFound("id908"))
  {
    var service, fromAccount, toAccount := Fixture(0.0, 0.0);
    ghost var events;
    r, events := service.Transfer("id908", toAccount.id, Some(10.0));
  }

  /** An unknown destination id is reported as not found. */
  method WrongToAccountScenario() returns (r: Result<string, Error>)
    ensures r == Failure(ResourceNotFound("id909"))
  {
    var service, fromAccount, toAccount := Fixture(0.0, 0.0);
    ghost var events;
    r, events := service.Transfer(fromAccount.id, "id909", Some(10.0));
  }

  /** 10.50 moves from a balance of 100 to a balance of 10; both records show it. */
  method ValidTransferScenario() returns (r: Result<string, Error>, fromBalance: real, toBalance: real)
    ensures r == Success(SUCCESS)
    ensures fromBalance == 89.5 && toBalance == 20.5
  {
    var service, fromAccount, toAccount := Fixture(100.0, 10.0);
    ghost var events;
    r, events := service.Transfer(fromAccount.id, toAccount.id, Some(10.5));
    assert service.accountsService.Balances()["Id-1"] == fromAccount.balance;
    assert service.accountsService.Balances()["Id-2"] == toAccount.balance;
    fromBalance, toBalance := fromAccount.balance, toAccount.balance;
  }

  /** 100.50 cannot leave a balance of 100: the transfer fails and neither balance moves. */
  method LowBalanceScenario() returns (r: Result<string, Error>, fromBalance: real, toBalance: real)
    ensures r == Failure(LowBalance)
    ensures fromBalance == 100.0 && toBalance == 10.0
  {
    var service, fromAccount, toAccount := Fixture(100.0, 10.0);
    ghost var events;
    r, events := service.Transfer(fromAccount.id, toAccount.id, Some(100.5));
    assert service.accountsService.Balances()["Id-1"] == fromAccount.balance;
    assert service.accountsService.Balances()["Id-2"] == toAccount.balance;
    fromBalance, toBalance := fromAccount.balance, toAccount.balance;
  }

  /** A stored account can be looked up by its id, and the lookup yields the stored record itself. */
  method CreateThenGetScenario(id: string) returns (account: Account, r: Result<Account, Error>)
    ensures r == Success(account) && account.id == id
  {
    var accounts := new AccountsService();
    account := new Account(id, 0.0);
    accounts.CreateAccount(account);
    r := accounts.GetAccount(id);
  }

  /**
   * A transfer from an account to itself: the credit reads the debited
   * balance, so a covered amount leaves the balance as it was, and an
   * amount above the balance is still rejected.
   */
  method SelfTransferScenario() returns (covered: Result<string, Error>, uncovered: Result<string, Error>, balance: real)
    ensures covered == Success(SUCCESS) && uncovered == Failure(LowBalance)
    ensures balance == 100.0
  {
    var service, fromAccount, toAccount := Fixture(100.0, 10.0);
    ghost var events;
    covered, events := service.Transfer(fromAccount.id, fromAccount.id, Some(30.0));
    assert service.accountsService.Balances()["Id-1"] == fromAccount.balance;
    uncovered, events := service.Transfer(fromAccount.id, fromAccount.id, Some(130.0));
    assert service.accountsService.Balances()["Id-1"] == fromAccount.balance;
    balance := fromAccount.balance;
  }
}
