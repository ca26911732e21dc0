/**
 * The wallet service: creating a wallet, applying a deposit or withdrawal,
 * and reading a balance, each as one atomic step against the wallets table.
 *
 * `Operate` states what one wallet operation does to the table and what it
 * returns; the `WalletService` methods do the same work the way the service
 * does it (load the entity, check, overwrite its amount, write it back) and
 * are proved to agree with `Operate`. `Run` folds `Operate` over a serial
 * history of operations.
 */
module Service {
  import opened WalletModel
  import opened Repository

  /** The new balance once an operation has been admitted. */
  function NewAmount(kind: OperationType, balance: int, amount: int): int {
    match kind
    case DEPOSIT => balance + amount
    case WITHDRAW => balance - amount
  }

  /** The service's one business check: a withdrawal larger than the balance is refused. */
  predicate Refused(kind: OperationType, balance: int, amount: int) {
    kind == WITHDRAW && balance < amount
  }

  /** What one service call returns, together with the table it leaves behind. */
  datatype Step = Step(result: Result<WalletDto>, table: Table)

  /**
   * One wallet operation. A missing wallet fails with WalletNotFound, a
   * withdrawal above the balance fails with InsufficientFunds carrying the
   * id, the balance and the requested amount, and in both cases the table
   * is unchanged. Otherwise a deposit adds the amount, a withdrawal
   * subtracts it, and the result reports the wallet's new balance. No other
   * wallet changes, and with a non-negative amount no balance becomes
   * negative.
   */
  function Operate(table: Table, op: WalletOperationDto): (s: Step)
    ensures s.table.Keys == table.Keys
    ensures forall id :: id in table && id != op.id ==> s.table[id] == table[id]
    ensures op.id !in table ==> s == Step(Err(WalletNotFound(op.id)), table)
    ensures op.id in table && op.kind == WITHDRAW && op.amount > table[op.id] ==>
              s == Step(Err(InsufficientFunds(op.id, table[op.id], op.amount)), table)
    ensures op.id in table && op.kind == WITHDRAW && op.amount <= table[op.id] ==>
              s.table[op.id] == table[op.id] - op.amount >= 0
    ensures op.id in table && op.kind == DEPOSIT ==> s.table[op.id] == table[op.id] + op.amount
    ensures s.result.Ok? <==> op.id in table && !(op.kind == WITHDRAW && op.amount > table[op.id])
    ensures s.result.Ok? ==> s.result.value == WalletDto(op.id, s.table[op.id])
    ensures op.amount >= 0 && NonNegative(table) ==> NonNegative(s.table)
  {
    if op.id !in table then
      Step(Err(WalletNotFound(op.id)), table)
    else if Refused(op.kind, table[op.id], op.amount) then
      Step(Err(InsufficientFunds(op.id, table[op.id], op.amount)), table)
    else
      var balance := NewAmount(op.kind, table[op.id], op.amount);
      Step(Ok(WalletDto(op.id, balance)), table[op.id := balance])
  }

  /** The results and the final table of a serial history of operations. */
  datatype History = History(results: seq<Result<WalletDto>>, table: Table)

  /** Applies the operations one after another, each to the table the previous one left. */
  function Run(table: Table, ops: seq<WalletOperationDto>): (h: History)
    ensures |h.results| == |ops|
    ensures h.table.Keys == table.Keys
    decreases |ops|
  {
    if ops == [] then History([], table)
    else
      var s := Operate(table, ops[0]);
      var rest := Run(s.table, ops[1..]);
      History([s.result] + rest.results, rest.table)
  }

  /** A serial history in which every operation has a non-negative amount keeps every balance non-negative. */
  lemma {:induction false} RunPreservesNonNegative(table: Table, ops: seq<WalletOperationDto>)
    requires NonNegative(table)
    requires forall i :: 0 <= i < |ops| ==> ops[i].amount >= 0
    ensures NonNegative(Run(table, ops).table)
    decreases |ops|
  {
    if ops != [] {
      RunPreservesNonNegative(Operate(table, ops[0]).table, ops[1..]);
    }
  }

  /** Operations that all name other wallets leave wallet `id` as it was. */
  lemma {:induction false} RunLeavesOtherWalletsAlone(table: Table, ops: seq<WalletOperationDto>, id: WalletId)
    requires id in table
    requires forall i :: 0 <= i < |ops| ==> ops[i].id != id
    ensures Run(table, ops).table[id] == table[id]
    decreases |ops|
  {
    if ops != [] {
      RunLeavesOtherWalletsAlone(Operate(table, ops[0]).table, ops[1..], id);
    }
  }

  /** `n` deposit requests of `amount` cents each, all for wallet `id`. */
  function Deposits(id: WalletId, n: nat, amount: int): (ops: seq<WalletOperationDto>)
    ensures |ops| == n
    ensures forall i :: 0 <= i < n ==> ops[i] == WalletOperationDto(id, DEPOSIT, amount)
  {
    if n == 0 then [] else [WalletOperationDto(id, DEPOSIT, amount)] + Deposits(id, n - 1, amount)
  }

  /**
   * Any serial history of `n` deposits of `amount` on one existing wallet
   * succeeds every time; the i-th call reports the balance after i + 1
   * deposits, the wallet ends `n * amount` higher, and no other wallet moves.
   */
  lemma {:induction false} SerialDeposits(table: Table, id: WalletId, n: nat, amount: int)
    requires id in table
    ensures Run(table, Deposits(id, n, amount)).table == table[id := table[id] + n * amount]
    ensures forall i :: 0 <= i < n ==>
              Run(table, Deposits(id, n, amount)).results[i] == Ok(WalletDto(id, table[id] + (i + 1) * amount))
  {
    var ops := Deposits(id, n, amount);
    if n == 0 {
      assert table[id := table[id] + n * amount] == table;
    } else {
      var s := Operate(table, ops[0]);
      assert s.table == table[id := table[id] + amount];
      assert ops[1..] == Deposits(id, n - 1, amount);
      SerialDeposits(s.table, id, n - 1, amount);
      var rest := Run(s.table, ops[1..]);
      assert s.table[id] + (n - 1) * amount == table[id] + n * amount;
      assert rest.table == table[id := table[id] + n * amount];
      var h := Run(table, ops);
      assert h.results == [s.result] + rest.results;
      forall i | 0 <= i < n
        ensures h.results[i] == Ok(WalletDto(id, table[id] + (i + 1) * amount))
      {
        if i > 0 {
          assert h.results[i] == rest.results[i - 1];
          assert s.table[id] + i * amount == table[id] + (i + 1) * amount;
        }
      }
    }
  }

  /**
   * The concurrent-deposit test taken serially: 200 deposits of 1.00 on a
   * fresh wallet all succeed and leave 200.00.
   */
  lemma TwoHundredDepositsOfOne(id: WalletId)
    ensures Run(map[id := 0], Deposits(id, 200, 100)).table[id] == 20000
    ensures forall i :: 0 <= i < 200 ==> Run(map[id := 0], Deposits(id, 200, 100)).results[i].Ok?
  {
    SerialDeposits(map[id := 0], id, 200, 100);
  }

  /**
   * Create, deposit 100.00, try to withdraw 150.00 (refused, balance kept),
   * withdraw 100.00 (drained to exactly 0).
   */
  lemma DepositRefuseDrain(id: WalletId)
    ensures Run(map[id := 0], [ WalletOperationDto(id, DEPOSIT, 10000)
                              , WalletOperationDto(id, WITHDRAW, 15000)
                              , WalletOperationDto(id, WITHDRAW, 10000) ])
            == History([ Ok(WalletDto(id, 10000))
                       , Err(InsufficientFunds(id, 10000, 15000))
                       , Ok(WalletDto(id, 0)) ], map[id := 0])
  {
    var t0: Table := map[id := 0];
    var d := WalletOperationDto(id, DEPOSIT, 10000);
    var w1 := WalletOperationDto(id, WITHDRAW, 15000);
    var w2 := WalletOperationDto(id, WITHDRAW, 10000);
    var t1 := Operate(t0, d).table;
    assert t1 == map[id := 10000];
    assert Operate(t1, w1) == Step(Err(InsufficientFunds(id, 10000, 15000)), t1);
    var t3 := Operate(t1, w2).table;
    assert t3 == map[id := 0];
    assert [d, w1, w2][1..] == [w1, w2] && [w1, w2][1..] == [w2] && [w2][1..] == [];
    assert Run(t1, [w2]) == History([Ok(WalletDto(id, 0))], t3);
    assert Run(t1, [w1, w2]) == History([Err(InsufficientFunds(id, 10000, 15000)), Ok(WalletDto(id, 0))], t3);
  }

  /**
   * The wallet service over one repository. Every public method is one
   * transaction: it either commits all its changes or, on an error, none.
   */
  class WalletService {
    const repository: WalletRepository

    constructor (repository: WalletRepository)
      ensures this.repository == repository
    {
      this.repository := repository;
    }

    /**
     * Creates a wallet with balance 0 under an id no stored wallet has;
     * every wallet already stored keeps its balance.
     */
    method CreateWallet() returns (created: WalletDto)
      modifies repository
      ensures created.id !in old(repository.table) && created.amount == 0
      ensures repository.table == old(repository.table)[created.id := 0]
      ensures NonNegative(old(repository.table)) ==> NonNegative(repository.table)
    {
      var saved := repository.SaveNew(0);
      created := WalletDto(saved.id, saved.amount);
    }

    /**
     * Looks the wallet up (WalletNotFound when it is absent), applies the
     * operation to the loaded entity, and on success writes the entity back
     * and returns it. The whole call is the step `Operate` describes.
     */
    method WalletOperation(dto: WalletOperationDto) returns (r: Result<WalletDto>)
      modifies repository
      ensures Step(r, repository.table) == Operate(old(repository.table), dto)
    {
      var found := repository.FindById(dto.id);
      if found.None? {
        return Err(WalletNotFound(dto.id));
      }
      var wallet := found.value;
      var outcome := ApplyOperation(wallet, dto.kind, dto.amount);
      if outcome.Fail? {
        return Err(outcome.error);
      }
      repository.Flush(wallet);
      r := Ok(WalletDto(wallet.id, wallet.amount));
    }

    /**
     * Refuses a withdrawal above the entity's balance, leaving the entity
     * as it was; otherwise overwrites the entity's amount in place with the
     * balance plus (deposit) or minus (withdrawal) the amount.
     */
    method ApplyOperation(wallet: Wallet, kind: OperationType, amount: int) returns (outcome: Outcome)
      modifies wallet
      ensures outcome == if kind == WITHDRAW && old(wallet.amount) < amount
                         then Fail(InsufficientFunds(wallet.id, old(wallet.amount), amount))
                         else Pass
      ensures outcome.Pass? && kind == DEPOSIT ==> wallet.amount == old(wallet.amount) + amount
      ensures outcome.Pass? && kind == WITHDRAW ==> wallet.amount == old(wallet.amount) - amount >= 0
      ensures outcome.Fail? ==> wallet.amount == old(wallet.amount)
    {
      if Refused(kind, wallet.amount, amount) {
        return Fail(InsufficientFunds(wallet.id, wallet.amount, amount));
      }
      var newAmount := NewAmount(kind, wallet.amount, amount);
      wallet.amount := newAmount;
      outcome := Pass;
    }

    /**
     * Reads a wallet's balance, or fails with WalletNotFound. It declares
     * no frame, so it changes nothing and two calls with no change in
     * between return the same answer.
     */
    method GetBalance(id: WalletId) returns (r: Result<WalletBalanceDto>)
      ensures r.Ok? <==> id in repository.table
      ensures r.Ok? ==> r.value.amount == repository.table[id]
      ensures r.Err? ==> r.error == WalletNotFound(id)
    {
      var found := repository.FindById(id);
      if found.None? {
        return Err(WalletNotFound(id));
      }
      r := Ok(WalletBalanceDto(found.value.amount));
    }

    /**
     * The same operation issued through the repository's single-statement
     * updates: the deposit or withdrawal statement runs first; a re-read
     * then tells a missing wallet from a short one when the count is 0, and
     * supplies the new balance when it is 1. Taken one call at a time it
     * is the step `Operate` describes, exactly like `WalletOperation`.
     */
    method WalletOperationAtomic(dto: WalletOperationDto) returns (r: Result<WalletDto>)
      modifies repository
      ensures Step(r, repository.table) == Operate(old(repository.table), dto)
    {
      var count;
      match dto.kind {
        case DEPOSIT => count := repository.Deposit(dto.id, dto.amount);
        case WITHDRAW => count := repository.Withdraw(dto.id, dto.amount);
      }
      var found := repository.FindById(dto.id);
      if found.None? {
        return Err(WalletNotFound(dto.id));
      }
      if count == 0 {
        return Err(InsufficientFunds(dto.id, found.value.amount, dto.amount));
      }
      r := Ok(WalletDto(dto.id, found.value.amount));
    }
  }
}
