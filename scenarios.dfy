/**
 * The project's tests, replayed against the service and repository
 * classes one call at a time.
 */
module Scenarios {
  import opened WalletModel
  import opened Repository
  import opened Service

  /**
   * `operations` deposits of `amount` on wallet `id`, issued one after
   * another, counting the calls that fail. On an existing wallet none
   * fails and the wallet ends `operations * amount` higher; on a missing
   * one every call fails and nothing changes.
   */
  method DepositRepeatedly(service: WalletService, id: WalletId, operations: nat, amount: int)
    returns (errors: nat)
    modifies service.repository
    ensures id in old(service.repository.table) ==>
              errors == 0 &&
              service.repository.table ==
                old(service.repository.table)[id := old(service.repository.table)[id] + operations * amount]
    ensures id !in old(service.repository.table) ==>
              errors == operations && service.repository.table == old(service.repository.table)
  {
    var start := service.repository.table;
    errors := 0;
    var i := 0;
    while i < operations
      invariant 0 <= i <= operations
      invariant id in start ==> errors == 0 && service.repository.table == start[id := start[id] + i * amount]
      invariant id !in start ==> errors == i && service.repository.table == start
    {
      var r := service.WalletOperation(WalletOperationDto(id, DEPOSIT, amount));
      if r.Err? {
        errors := errors + 1;
      }
      i := i + 1;
    }
  }

  /**
   * The concurrent-deposit test taken serially: a wallet saved with 0,
   * 200 deposits of 1.00 through the service, no errors, and a final
   * balance of 200.00, whatever other wallets the store already holds.
   */
  method ConcurrentDepositsSerially(existing: Table) returns (errors: nat, balance: Result<WalletBalanceDto>)
    ensures errors == 0
    ensures balance == Ok(WalletBalanceDto(20000))
  {
    var repository := new WalletRepository(existing);
    var service := new WalletService(repository);
    var wallet := repository.SaveNew(0);
    errors := DepositRepeatedly(service, wallet.id, 200, 100);
    balance := service.GetBalance(wallet.id);
  }

  /**
   * The endpoint tests: a created wallet reports 0; 100.00 deposited on a
   * wallet at 0 reports 100.00; withdrawing 100.00 from a wallet at 10.00
   * is refused; an operation on an unknown id reports that the wallet is not
   * found. Reading a balance twice in a row agrees.
   */
  method EndpointScenarios(existing: Table)
    returns (created: WalletDto, deposited: Result<WalletDto>, refused: Result<WalletDto>,
             missing: Result<WalletDto>, firstRead: Result<WalletBalanceDto>, secondRead: Result<WalletBalanceDto>)
    ensures created.amount == 0
    ensures deposited.Ok? && deposited.value.amount == 10000
    ensures refused.Err? && refused.error.InsufficientFunds?
    ensures refused.error.balance == 1000 && refused.error.requested == 10000
    ensures missing.Err? && missing.error.WalletNotFound?
    ensures firstRead == secondRead == Ok(WalletBalanceDto(10000))
  {
    var repository := new WalletRepository(existing);
    var service := new WalletService(repository);

    created := service.CreateWallet();

    var empty := repository.SaveNew(0);
    deposited := service.WalletOperation(WalletOperationDto(empty.id, DEPOSIT, 10000));

    var poor := repository.SaveNew(1000);
    refused := service.WalletOperation(WalletOperationDto(poor.id, WITHDRAW, 10000));

    FreshIdExists(repository.table.Keys);
    var unknown: WalletId :| unknown !in repository.table;
    missing := service.WalletOperation(WalletOperationDto(unknown, DEPOSIT, 10000));

    firstRead := service.GetBalance(empty.id);
    secondRead := service.GetBalance(empty.id);
  }
}
