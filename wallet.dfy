/**
 * The wallet entity and the values that travel between the wallet service
 * and its callers.
 *
 * Money is counted in whole cents: the balance column holds decimals with
 * two digits after the point, so a balance of 200.00 is the integer 20000.
 */
module WalletModel {

  /** A wallet's key. The store generates it once, when the wallet is first saved. */
  type WalletId = nat

  /** The wallets table: every stored wallet id with its balance in cents. */
  type Table = map<WalletId, int>

  /** The two kinds of operation a caller may ask for. */
  datatype OperationType = DEPOSIT | WITHDRAW

  /** A request to change one wallet's balance by `amount` cents. */
  datatype WalletOperationDto = WalletOperationDto(id: WalletId, kind: OperationType, amount: int)

  /** What the service hands back after creating or changing a wallet. */
  datatype WalletDto = WalletDto(id: WalletId, amount: int)

  /** What the service hands back for a balance inquiry: the amount alone. */
  datatype WalletBalanceDto = WalletBalanceDto(amount: int)

  /** The service's two business errors, with the data each one reports. */
  datatype WalletError =
    | WalletNotFound(id: WalletId)
    | InsufficientFunds(walletId: WalletId, balance: int, requested: int)

  datatype Option<T> = None | Some(value: T)

  /** The outcome of a service call: a value, or the error it raised. */
  datatype Result<T> = Ok(value: T) | Err(error: WalletError)

  /** The outcome of a step that returns nothing when it succeeds. */
  datatype Outcome = Pass | Fail(error: WalletError)

  /** No wallet in the table holds a negative balance. */
  predicate NonNegative(table: Table) {
    forall id :: id in table ==> table[id] >= 0
  }

  /**
   * A wallet entity as loaded from the store. Its id never changes; its
   * amount is a plain field that the service overwrites in place.
   */
  class Wallet {
    const id: WalletId
    var amount: int

    constructor (id: WalletId, amount: int)
      ensures this.id == id && this.amount == amount
    {
      this.id := id;
      this.amount := amount;
    }
  }
}
