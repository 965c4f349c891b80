/** The ledger's value records: accounts, postings and transactions, and the
    transfer records that name an account by its name instead of holding it. */
module Model {
  import opened Wrappers
  import opened Dates

  /** An amount with exactly two fractional digits, as a whole number of cents. */
  type Cents = int

  datatype Account = Account(name: string, balance: Option<Cents>)

  /** A posting holds its account; an absent amount is an elided one. */
  datatype Posting = Posting(account: Account, amount: Option<Cents>)

  datatype Transaction = Transaction(date: Date, description: string, postings: seq<Posting>)

  datatype PostingDTO = PostingDTO(accountName: string, amount: Option<Cents>)

  datatype TransactionDTO = TransactionDTO(date: Date, description: string, postings: seq<PostingDTO>)
}
