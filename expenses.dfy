/**
 * The one entity of the ledger: a transaction record with the four fields
 * `{amount, description, date, isCredit}` that both screens build.
 */
module Expenses {

  /**
   * A ledger entry. `amount` is in hundredths of a rupee (paise), signed by
   * convention: not negative for a credit, not positive for a debit. A minus
   * sign typed into a credit entry breaks the convention (see
   * `AddExpense.NegativeCreditKept`). `date` is kept as the opaque text the
   * screens store.
   */
  datatype Expense = Expense(amount: int, description: string, date: string, isCredit: bool)

  /** `isCredit ? x : -x`: both screens derive the stored sign from the direction this way. */
  function SignedAmount(magnitude: int, isCredit: bool): (amount: int)
    ensures isCredit ==> amount == magnitude
    ensures !isCredit ==> amount + magnitude == 0
  {
    if isCredit then magnitude else -magnitude
  }

  /** The intended agreement of the redundant sign with the direction flag (0 fits either). */
  predicate WellSigned(e: Expense) {
    (e.isCredit ==> e.amount >= 0) && (!e.isCredit ==> e.amount <= 0)
  }

  /** A non-negative magnitude signed by its direction always agrees with that direction. */
  lemma SignedAmountWellSigned(magnitude: int, isCredit: bool, description: string, date: string)
    requires magnitude >= 0
    ensures WellSigned(Expense(SignedAmount(magnitude, isCredit), description, date, isCredit))
  {
  }
}
