/**
 * What concurrent callers can observe.
 *
 * `WalletService.WalletOperation` touches the store twice: it loads the
 * entity at the start of its transaction and writes the entity's new amount
 * back at commit. Nothing (no version column, no row lock) stops another
 * transaction from committing in between, so two transactions may start from
 * the same balance. `Load` and `Commit` are those two halves; interleaving
 * halves of different transactions gives the histories concurrent callers
 * can produce.
 *
 * The repository's single-statement updates have no such gap: the
 * statement reads, checks and writes the row as one step, so every
 * interleaving of them is a sequence of whole statements.
 */
module Interleaving {
  import opened WalletModel
  import opened Repository
  import opened Service

  /** What a wallet-operation transaction has seen when it loaded the entity. */
  datatype Snapshot = Snapshot(op: WalletOperationDto, read: Option<int>)

  /** The first half of a transaction: the lookup. */
  function Load(table: Table, op: WalletOperationDto): (snap: Snapshot)
    ensures snap.op == op
    ensures snap.read.Some? <==> op.id in table
    ensures snap.read.Some? ==> snap.read.value == table[op.id]
  {
    Snapshot(op, if op.id in table then Some(table[op.id]) else None)
  }

  /**
   * The second half: the check and the arithmetic on the balance that was
   * loaded, then, on success, the write of the resulting balance into the
   * row as an absolute value. An entity whose amount did not change (an
   * amount of zero) is not dirty, so its commit writes nothing.
   */
  function Commit(table: Table, snap: Snapshot): (s: Step)
    ensures snap.read.None? ==> s == Step(Err(WalletNotFound(snap.op.id)), table)
    ensures snap.read.Some? ==> (s.result.Ok? <==> !Refused(snap.op.kind, snap.read.value, snap.op.amount))
    ensures snap.read.Some? && !s.result.Ok? ==>
              s == Step(Err(InsufficientFunds(snap.op.id, snap.read.value, snap.op.amount)), table)
    ensures s.result.Ok? ==>
              snap.read.Some? &&
              s.result.value == WalletDto(snap.op.id, NewAmount(snap.op.kind, snap.read.value, snap.op.amount))
    ensures s.result.Ok? && NewAmount(snap.op.kind, snap.read.value, snap.op.amount) != snap.read.value ==>
              s.table == table[snap.op.id := NewAmount(snap.op.kind, snap.read.value, snap.op.amount)]
    ensures s.result.Ok? && NewAmount(snap.op.kind, snap.read.value, snap.op.amount) == snap.read.value ==>
              s.table == table
  {
    match snap.read
    case None => Step(Err(WalletNotFound(snap.op.id)), table)
    case Some(balance) =>
      if Refused(snap.op.kind, balance, snap.op.amount) then
        Step(Err(InsufficientFunds(snap.op.id, balance, snap.op.amount)), table)
      else
        var newAmount := NewAmount(snap.op.kind, balance, snap.op.amount);
        Step(Ok(WalletDto(snap.op.id, newAmount)), if newAmount == balance then table else table[snap.op.id := newAmount])
  }

  /** With nothing in between, the two halves are exactly one serial operation. */
  lemma LoadThenCommitIsOperate(table: Table, op: WalletOperationDto)
    ensures Commit(table, Load(table, op)) == Operate(table, op)
  {
  }

  /**
   * Two deposits of `amount` whose loads both happen before either commit:
   * both succeed, yet the wallet gains only one `amount`, where the serial
   * history gives two.
   */
  lemma InterleavedDepositsLoseOne(table: Table, id: WalletId, amount: int)
    requires id in table
    ensures var d := WalletOperationDto(id, DEPOSIT, amount);
            var first := Commit(table, Load(table, d));
            var second := Commit(first.table, Load(table, d));
            && first.result.Ok? && second.result.Ok?
            && second.table[id] == table[id] + amount
            && Run(table, Deposits(id, 2, amount)).table[id] == table[id] + 2 * amount
  {
    SerialDeposits(table, id, 2, amount);
  }

  /**
   * Two withdrawals of `amount` from a balance that covers one but not two,
   * both loaded before either commits: both succeed and the wallet loses
   * only one `amount`, so 2 * amount left the wallet against a debit of one.
   * Taken serially, the second is refused.
   */
  lemma InterleavedWithdrawalsBothSucceed(table: Table, id: WalletId, amount: int)
    requires id in table && amount <= table[id] < 2 * amount
    ensures var w := WalletOperationDto(id, WITHDRAW, amount);
            var first := Commit(table, Load(table, w));
            var second := Commit(first.table, Load(table, w));
            && first.result == Ok(WalletDto(id, table[id] - amount))
            && second.result == Ok(WalletDto(id, table[id] - amount))
            && second.table[id] == table[id] - amount
  {
  }

  /** Serially, the second of those two withdrawals is refused with the balance the first left. */
  lemma SerialWithdrawalsRefuseSecond(table: Table, id: WalletId, amount: int)
    requires id in table && amount <= table[id] < 2 * amount
    ensures var w := WalletOperationDto(id, WITHDRAW, amount);
            Run(table, [w, w]).results
              == [Ok(WalletDto(id, table[id] - amount)), Err(InsufficientFunds(id, table[id] - amount, amount))]
  {
  }

  /** One single-statement update: a WHERE clause and the delta its SET clause adds. */
  datatype Statement = Statement(clause: Where, delta: int)

  function DepositStatement(id: WalletId, amount: int): Statement {
    Statement(IdIs(id), amount)
  }

  function WithdrawStatement(id: WalletId, amount: int): Statement {
    Statement(IdIsAndAmountAtLeast(id, amount), -amount)
  }

  /** `n` copies of one statement, as issued by `n` callers. */
  function Repeat(st: Statement, n: nat): (sts: seq<Statement>)
    ensures |sts| == n
    ensures forall i :: 0 <= i < n ==> sts[i] == st
  {
    if n == 0 then [] else [st] + Repeat(st, n - 1)
  }

  /** Statements executed one after another: the rows they touched in all and the final table. */
  function ExecuteAll(table: Table, sts: seq<Statement>): (u: Update)
    ensures u.table.Keys == table.Keys
    ensures u.count <= |sts|
    decreases |sts|
  {
    if sts == [] then Update(0, table)
    else
      var first := Execute(table, sts[0].clause, sts[0].delta);
      var rest := ExecuteAll(first.table, sts[1..]);
      Update(first.count + rest.count, rest.table)
  }

  /**
   * However `n` deposit statements of `amount` on an existing wallet are
   * ordered, each touches one row and the wallet ends `n * amount` higher:
   * no deposit is lost.
   */
  lemma {:induction false} AtomicDeposits(table: Table, id: WalletId, n: nat, amount: int)
    requires id in table
    ensures ExecuteAll(table, Repeat(DepositStatement(id, amount), n)) == Update(n, table[id := table[id] + n * amount])
  {
    var sts := Repeat(DepositStatement(id, amount), n);
    if n == 0 {
      assert table[id := table[id] + n * amount] == table;
    } else {
      var first := Execute(table, IdIs(id), amount);
      assert sts[1..] == Repeat(DepositStatement(id, amount), n - 1);
      AtomicDeposits(first.table, id, n - 1, amount);
      assert first.table[id] + (n - 1) * amount == table[id] + n * amount;
      assert first.table[id := table[id] + n * amount] == table[id := table[id] + n * amount];
    }
  }

  /**
   * `m` withdrawal statements of `amount` against a non-negative balance:
   * the balance drops by `amount` for every statement that touched the row
   * and never goes below zero, and fewer than `m` succeed only when what is
   * left is less than one `amount`. So for a positive amount exactly
   * min(m, balance / amount) succeed, and for a zero amount all `m` do,
   * whatever order the callers' statements reach the store in.
   */
  lemma {:induction false} AtomicWithdrawals(table: Table, id: WalletId, m: nat, amount: int)
    requires id in table && table[id] >= 0 && amount >= 0
    ensures var u := ExecuteAll(table, Repeat(WithdrawStatement(id, amount), m));
            && u.count <= m
            && u.table == table[id := table[id] - u.count * amount]
            && table[id] - u.count * amount >= 0
            && (u.count < m ==> table[id] - u.count * amount < amount)
  {
    var sts := Repeat(WithdrawStatement(id, amount), m);
    var b := table[id];
    if amount == 0 {
      ZeroWithdrawals(table, id, m);
      assert table[id := b - m * 0] == table;
    } else if m == 0 {
      assert table[id := b - 0 * amount] == table;
    } else {
      assert sts[1..] == Repeat(WithdrawStatement(id, amount), m - 1);
      var first := Execute(table, IdIsAndAmountAtLeast(id, amount), -amount);
      var rest := ExecuteAll(first.table, sts[1..]);
      assert ExecuteAll(table, sts) == Update(first.count + rest.count, rest.table);
      AtomicWithdrawals(first.table, id, m - 1, amount);
      var c := rest.count;
      if b >= amount {
        assert first.count == 1 && first.table == table[id := b - amount];
        assert first.table[id] - c * amount == b - (1 + c) * amount by {
          MultiplySuccessor(c, amount);
        }
        assert first.table[id := b - (1 + c) * amount] == table[id := b - (1 + c) * amount];
      } else {
        assert first.count == 0 && first.table == table;
        assert c * amount >= 0 by {
          MultiplyNonNegative(c, amount);
        }
      }
    }
  }

  /** Withdrawal statements of 0 against a non-negative balance all touch the row and change nothing. */
  lemma {:induction false} ZeroWithdrawals(table: Table, id: WalletId, m: nat)
    requires id in table && table[id] >= 0
    ensures ExecuteAll(table, Repeat(WithdrawStatement(id, 0), m)) == Update(m, table)
  {
    if m > 0 {
      var sts := Repeat(WithdrawStatement(id, 0), m);
      assert sts[1..] == Repeat(WithdrawStatement(id, 0), m - 1);
      assert Execute(table, IdIsAndAmountAtLeast(id, 0), -0).table == table;
      ZeroWithdrawals(table, id, m - 1);
    }
  }

  lemma MultiplySuccessor(c: nat, amount: int)
    ensures (1 + c) * amount == amount + c * amount
  {
  }

  lemma MultiplyNonNegative(c: nat, amount: int)
    requires amount >= 0
    ensures c * amount >= 0
  {
  }
}
