/** The data model shared by the balance calculator, the settlement solver and the
    CSV export: the records the database layer hands to the core, and the records
    the core hands back. Amounts are exact reals. */
module Ledger {

  /** An optional column: `undefined`/`null` is `None`. */
  datatype Option<T> = None | Some(value: T) {
    function GetOr(default: T): T {
      match this
      case Some(v) => v
      case None => default
    }
  }

  datatype TransactionType = Expense | Repayment | Income

  datatype Member = Member(id: string, name: string)

  /** One member's share of a transaction: either an exact amount or a number of parts.
      A split with `exactAmount == None` is parts-based. */
  datatype Split = Split(memberId: string, parts: Option<real>, exactAmount: Option<real>)

  /** A transaction with its payer and splits already joined. `kind` is `None` on
      legacy rows written before transaction types existed. */
  datatype Transaction = Transaction(
    kind: Option<TransactionType>,
    title: string,
    date: string,
    amount: real,
    currency: string,
    baseCurrencyAmount: Option<real>,
    payer: Member,
    splits: seq<Split>)

  /** Positive: the member is owed money. Negative: the member owes money. */
  datatype MemberBalance = MemberBalance(memberId: string, memberName: string, balance: real)

  /** A suggested payment from a debtor to a creditor. */
  datatype Settlement = Settlement(
    fromMemberId: string,
    fromMemberName: string,
    toMemberId: string,
    toMemberName: string,
    amount: real)
}
