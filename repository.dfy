/**
 * The wallet store: the wallets table, its point lookup, inserting a new
 * wallet, and the two single-statement balance updates.
 *
 * An UPDATE statement is modelled the way SQL evaluates it: the WHERE clause
 * selects a set of rows, the SET clause adjusts exactly those rows, and the
 * statement reports how many rows it selected.
 */
module Repository {
  import opened WalletModel

  /** The WHERE clause of a balance update. */
  datatype Where =
    | IdIs(id: WalletId)                                // WHERE w.id = :id
    | IdIsAndAmountAtLeast(id: WalletId, minimum: int)  // WHERE w.id = :id AND w.amount >= :amount

  /** Whether the row (`id`, `amount`) satisfies the clause. */
  predicate Matches(clause: Where, id: WalletId, amount: int) {
    match clause
    case IdIs(k) => id == k
    case IdIsAndAmountAtLeast(k, minimum) => id == k && amount >= minimum
  }

  /** The rows of `table` the clause selects. */
  function Selected(table: Table, clause: Where): set<WalletId> {
    set id | id in table && Matches(clause, id, table[id])
  }

  /** The effect of an UPDATE: the number of rows it touched and the new table. */
  datatype Update = Update(count: nat, table: Table)

  /**
   * Because ids are the table's key, a clause that fixes the id selects the
   * row with that id, when the row exists and satisfies the clause, and
   * nothing else.
   */
  lemma SelectedIsTargetRow(table: Table, clause: Where)
    ensures Selected(table, clause) ==
              if clause.id in table && Matches(clause, clause.id, table[clause.id]) then {clause.id} else {}
    ensures |Selected(table, clause)| <= 1
  {
  }

  /**
   * `UPDATE Wallet w SET w.amount = w.amount + delta WHERE clause`: every
   * selected row gains `delta`, every other row is left as it was, and the
   * count is the number of selected rows, which is 0 or 1.
   */
  function Execute(table: Table, clause: Where, delta: int): (u: Update)
    ensures u.count <= 1
    ensures u.count == 1 <==> clause.id in table && Matches(clause, clause.id, table[clause.id])
    ensures u.count == 1 ==> u.table == table[clause.id := table[clause.id] + delta]
    ensures u.count == 0 ==> u.table == table
  {
    var rows := Selected(table, clause);
    SelectedIsTargetRow(table, clause);
    Update(|rows|, map id | id in table :: if id in rows then table[id] + delta else table[id])
  }

  /** Every set of ids leaves some id unused: one above all of them. */
  ghost function Bound(ids: set<WalletId>): (b: WalletId)
    ensures forall id :: id in ids ==> id < b
    decreases ids
  {
    if ids == {} then 0
    else
      var x :| x in ids;
      var rest := Bound(ids - {x});
      assert forall id :: id in ids ==> id == x || id in ids - {x};
      if x < rest then rest else x + 1
  }

  lemma FreshIdExists(ids: set<WalletId>)
    ensures exists id: WalletId :: id !in ids
  {
    var b := Bound(ids);
    assert b !in ids;
  }

  /** The wallets table and the queries issued against it. */
  class WalletRepository {
    var table: Table

    constructor (table: Table)
      ensures this.table == table
    {
      this.table := table;
    }

    /**
     * Point lookup. It declares no frame, so it changes nothing; when the
     * row exists it returns a fresh entity holding that row's id and amount.
     */
    method FindById(id: WalletId) returns (found: Option<Wallet>)
      ensures found.None? <==> id !in table
      ensures found.Some? ==> fresh(found.value) && found.value.id == id && found.value.amount == table[id]
    {
      if id in table {
        var wallet := new Wallet(id, table[id]);
        found := Some(wallet);
      } else {
        found := None;
      }
    }

    /**
     * Saving a new entity: the generator picks an id that no stored wallet
     * has, and the row (id, amount) is inserted. All other rows stay.
     */
    method SaveNew(amount: int) returns (saved: Wallet)
      modifies this
      ensures fresh(saved) && saved.amount == amount
      ensures saved.id !in old(table)
      ensures table == old(table)[saved.id := amount]
    {
      FreshIdExists(table.Keys);
      var id: WalletId :| id !in table;
      table := table[id := amount];
      saved := new Wallet(id, amount);
    }

    /**
     * Writing a loaded entity back when its transaction commits: the row
     * with the entity's id takes the entity's amount. All other rows stay.
     */
    method Flush(wallet: Wallet)
      requires wallet.id in table
      modifies this
      ensures table == old(table)[wallet.id := wallet.amount]
    {
      table := table[wallet.id := wallet.amount];
    }

    /**
     * The atomic deposit statement. It touches the row with this id, adding
     * `amount`, and returns 1; with no such row it returns 0 and changes
     * nothing.
     */
    method Deposit(id: WalletId, amount: int) returns (count: int)
      modifies this
      ensures count == (if id in old(table) then 1 else 0)
      ensures id in old(table) ==> table == old(table)[id := old(table)[id] + amount]
      ensures id !in old(table) ==> table == old(table)
      ensures table.Keys == old(table).Keys
      ensures amount >= 0 && NonNegative(old(table)) ==> NonNegative(table)
    {
      var u := Execute(table, IdIs(id), amount);
      count := u.count;
      table := u.table;
    }

    /**
     * The atomic withdrawal statement. It touches the row with this id only
     * when that row holds at least `amount`, subtracting it, and returns 1;
     * otherwise it returns 0 and changes nothing, whether the row is missing
     * or short of funds.
     */
    method Withdraw(id: WalletId, amount: int) returns (count: int)
      modifies this
      ensures count == (if id in old(table) && old(table)[id] >= amount then 1 else 0)
      ensures count == 1 ==> table == old(table)[id := old(table)[id] - amount]
      ensures count == 0 ==> table == old(table)
      ensures count == 1 ==> table[id] >= 0
      ensures NonNegative(old(table)) ==> NonNegative(table)
    {
      var u := Execute(table, IdIsAndAmountAtLeast(id, amount), -amount);
      count := u.count;
      table := u.table;
    }
  }

  /**
   * A zero count from the withdrawal statement does not say why: for any
   * table, a missing row and a row short of funds both yield 0 and leave the
   * table as it was.
   */
  lemma WithdrawCountIsAmbiguous(table: Table, id: WalletId, amount: int, balance: int)
    requires balance < amount
    ensures Execute(table - {id}, IdIsAndAmountAtLeast(id, amount), -amount) == Update(0, table - {id})
    ensures Execute(table[id := balance], IdIsAndAmountAtLeast(id, amount), -amount) == Update(0, table[id := balance])
  {
  }
}
