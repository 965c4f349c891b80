/** The file-backed ledger store. The file is its text: reading scans it line
    by line, saving appends to it. */
module LedgerStore {
  import opened Wrappers
  import opened Text
  import opened Amounts
  import opened Dates
  import opened Model
  import opened Lines
  import opened LineParser
  import opened Reader
  import opened Writer

  class LedgerDao {
    /** The contents of the ledger file. */
    var content: string

    constructor(initial: string)
      ensures content == initial
    {
      content := initial;
    }

    /** `getAllTransactions`, with today's date given instead of read from the
        clock: the scan of every line, then the last transaction. A header whose
        date `LocalDate.parse` refuses ends the read with that error. */
    method GetAllTransactions(today: Date) returns (r: Result<seq<Transaction>, DateError>)
      ensures r == ReadLedger(SplitLines(content), today)
    {
      var lines := SplitLines(content);
      var date := today;
      var description := "";
      var postings: seq<Posting> := [];
      var transactions: seq<Transaction> := [];
      var i := 0;
      while i < |lines|
        invariant 0 <= i <= |lines|
        invariant Scan(ScanState(date, description, postings, transactions), lines[i..]) == Scan(Initial(today), lines)
      {
        ghost var st := ScanState(date, description, postings, transactions);
        assert lines[i..][0] == lines[i] && lines[i..][1..] == lines[i + 1..];
        var line := lines[i];
        var transactionMatch := MatchHeader(line);
        if transactionMatch.Some? {
          if postings != [] {
            transactions := transactions + [Transaction(date, description, postings)];
            postings := [];
          }
          var parsed := ParseDate(transactionMatch.value.dateText);
          if parsed.Err? {
            return Err(parsed.error);
          }
          date := parsed.value;
          description := transactionMatch.value.description;
        } else {
          var postingMatch := MatchPosting(line);
          if postingMatch.Some? {
            var accountName := postingMatch.value.accountName;
            var amount := if IsNullOrEmpty(postingMatch.value.amountText) then None
                          else Some(DecodeAmount(postingMatch.value.amountText.value));
            var account := Account(accountName, amount);
            postings := postings + [Posting(account, amount)];
          }
        }
        assert Step(st, line) == Ok(ScanState(date, description, postings, transactions));
        i := i + 1;
      }
      assert lines[i..] == [];
      transactions := transactions + [Transaction(date, description, postings)];
      r := Ok(transactions);
    }

    /** `saveTransaction`: appends a line break, the header line and one line per
        posting, each followed by a line break; what was there stays as it was. */
    method SaveTransaction(t: Transaction)
      modifies this
      ensures content == old(content) + Serialize(t)
    {
      content := content + "\n";
      content := content + (FormatDate(t.date) + " " + t.description);
      content := content + "\n";
      AppendedHeader(old(content), t);
      for k := 0 to |t.postings|
        invariant content == old(content) + WrittenSoFar(t, k)
      {
        var posting := t.postings[k];
        var amountString := AmountText(posting.amount);
        AppendedPosting(old(content), content, t, k);
        content := content + ("    " + posting.account.name + "    $" + amountString);
        content := content + "\n";
      }
      WrittenAll(t);
    }
  }
}
