/** The scenarios of the store's tests, stated on the model. */
module LedgerExamples {
  import opened Wrappers
  import opened Text
  import opened Amounts
  import opened Dates
  import opened Model
  import opened Lines
  import opened Reader
  import opened Writer
  import opened RoundTrip

  /** The transaction the save test writes: 40.00 from checking to gas. */
  function GasTransaction(): Transaction {
    Transaction(CalendarDate(2025, 1, 1), "Gas",
                [Posting(Account("Expenses:Gas", None), Some(4000)),
                 Posting(Account("Assets:Checking", None), Some(-4000))])
  }

  lemma ZeroPadExamples()
    ensures ZeroPad(2025, 4) == "2025" && ZeroPad(1, 2) == "01" && ZeroPad(0, 2) == "00"
  {
    assert ZeroPad(2, 1) == "2" by { assert ZeroPad(2, 1) == [] + [DigitChar(2)]; }
    assert ZeroPad(20, 2) == "20" by { assert ZeroPad(20, 2) == ZeroPad(2, 1) + [DigitChar(0)]; }
    assert ZeroPad(202, 3) == "202" by { assert ZeroPad(202, 3) == ZeroPad(20, 2) + [DigitChar(2)]; }
    assert ZeroPad(2025, 4) == ZeroPad(202, 3) + [DigitChar(5)];
    assert ZeroPad(0, 1) == "0" by { assert ZeroPad(0, 1) == [] + [DigitChar(0)]; }
    assert ZeroPad(1, 2) == ZeroPad(0, 1) + [DigitChar(1)];
    assert ZeroPad(0, 2) == ZeroPad(0, 1) + [DigitChar(0)];
  }

  lemma FormatGasAmounts()
    ensures FormatCents(4000) == "40.00" && FormatCents(-4000) == "-40.00"
  {
    assert NatToDecimal(40) == "40" by {
      assert NatToDecimal(40) == NatToDecimal(4) + [DigitChar(0)];
      assert NatToDecimal(4) == [DigitChar(4)];
    }
    assert ZeroPad(0, 2) == "00" by { ZeroPadExamples(); }
    assert FormatCents(4000) == "40.00" by {
      assert Abs(4000) / 100 == 40 && Abs(4000) % 100 == 0;
    }
    assert FormatCents(-4000) == "-40.00" by {
      assert Abs(-4000) / 100 == 40 && Abs(-4000) % 100 == 0;
    }
  }

  lemma JoinFourLines(a: string, b: string, c: string, d: string)
    ensures JoinLines([a, b, c, d]) == a + "\n" + b + "\n" + c + "\n" + d + "\n"
  {
    assert [a, b, c, d][1..] == [b, c, d];
    assert [b, c, d][1..] == [c, d];
    assert [c, d][1..] == [d];
    assert [d][1..] == [];
    assert JoinLines([d]) == d + "\n" + "";
    assert JoinLines([c, d]) == c + "\n" + (d + "\n" + "");
    assert JoinLines([b, c, d]) == b + "\n" + (c + "\n" + (d + "\n" + ""));
    assert d + "\n" + "" == d + "\n";
    AppendAssoc(c + "\n", d, "\n");
    AppendAssoc(b + "\n", c + "\n", d + "\n");
    AppendAssoc(b + "\n" + c, "\n", d + "\n");
    AppendAssoc(a + "\n", b + "\n" + c + "\n", d + "\n");
    AppendAssoc(a + "\n", b + "\n" + c + "\n" + d, "\n");
  }

  lemma GasHeader(t: Transaction)
    requires t == GasTransaction()
    ensures HeaderText(t) == "2025-01-01 Gas"
  {
    assert FormatDate(t.date) == "2025-01-01" by { ZeroPadExamples(); }
    HeaderTextOf(t, "2025-01-01", "Gas");
    GasHeaderLiteral();
  }

  lemma HeaderTextOf(t: Transaction, date: string, description: string)
    requires FormatDate(t.date) == date && t.description == description
    ensures HeaderText(t) == date + " " + description
  {
  }

  lemma GasHeaderLiteral()
    ensures "2025-01-01" + " " + "Gas" == "2025-01-01 Gas"
  {
  }

  lemma GasPostingLines(t: Transaction)
    requires t == GasTransaction()
    ensures PostingLines(t.postings) == ["    Expenses:Gas    $40.00", "    Assets:Checking    $-40.00"]
  {
    var lines := PostingLines(t.postings);
    assert lines[0] == "    Expenses:Gas    $40.00" by { GasPostingLine(t.postings[0]); }
    assert lines[1] == "    Assets:Checking    $-40.00" by { CheckingPostingLine(t.postings[1]); }
  }

  lemma GasPostingLine(p: Posting)
    requires p == Posting(Account("Expenses:Gas", None), Some(4000))
    ensures PostingText(p) == "    Expenses:Gas    $40.00"
  {
    assert AmountText(p.amount) == "40.00" by { FormatGasAmounts(); }
    PostingTextOf(p, "Expenses:Gas", "40.00");
    GasLiteral();
  }

  lemma CheckingPostingLine(p: Posting)
    requires p == Posting(Account("Assets:Checking", None), Some(-4000))
    ensures PostingText(p) == "    Assets:Checking    $-40.00"
  {
    assert AmountText(p.amount) == "-40.00" by { FormatGasAmounts(); }
    PostingTextOf(p, "Assets:Checking", "-40.00");
    CheckingLiteral();
  }

  lemma GasLiteral()
    ensures "    " + "Expenses:Gas" + "    $" + "40.00" == "    Expenses:Gas    $40.00"
  {
  }

  lemma CheckingLiteral()
    ensures "    " + "Assets:Checking" + "    $" + "-40.00" == "    Assets:Checking    $-40.00"
  {
  }

  lemma PostingTextOf(p: Posting, name: string, amount: string)
    requires p.account.name == name && AmountText(p.amount) == amount
    ensures PostingText(p) == "    " + name + "    $" + amount
  {
  }

  lemma GasLines(t: Transaction)
    requires t == GasTransaction()
    ensures [""] + BodyLines(t) == ["", "2025-01-01 Gas", "    Expenses:Gas    $40.00", "    Assets:Checking    $-40.00"]
  {
    GasHeader(t);
    GasPostingLines(t);
    FourLines(t, "2025-01-01 Gas", "    Expenses:Gas    $40.00", "    Assets:Checking    $-40.00");
  }

  lemma FourLines(t: Transaction, h: string, c: string, d: string)
    requires HeaderText(t) == h && PostingLines(t.postings) == [c, d]
    ensures [""] + BodyLines(t) == ["", h, c, d]
  {
  }

  /** Saving the test's transaction appends exactly the text the test expects:
      a line break, then the header and the two postings, each ending a line. */
  lemma SavedGasTransactionText(t: Transaction)
    requires t == GasTransaction()
    ensures Serialize(t) == "\n" + "2025-01-01 Gas" + "\n" + "    Expenses:Gas    $40.00" + "\n"
                            + "    Assets:Checking    $-40.00" + "\n"
  {
    var a, b, c, d := "", "2025-01-01 Gas", "    Expenses:Gas    $40.00", "    Assets:Checking    $-40.00";
    GasLines(t);
    assert Serialize(t) == JoinLines([a, b, c, d]);
    JoinFourLines(a, b, c, d);
    assert a + "\n" == "\n";
  }

  /** Three transactions written one after the other read back as three, each
      with its date, description, postings and first posting as written. */
  lemma ReadThreeTransactions(ts: seq<Transaction>, today: Date)
    requires |ts| == 3
    requires forall k | 0 <= k < 3 :: Writable(ts[k]) && |ts[k].postings| == 2
    ensures var r := ReadLedger(SplitLines(SerializeAll(ts)), today);
            && r.Ok? && |r.value| == 3
            && forall k | 0 <= k < 3 ::
                 && r.value[k].date == ts[k].date
                 && r.value[k].description == ts[k].description
                 && |r.value[k].postings| == 2
                 && r.value[k].postings[0].account.name == ts[k].postings[0].account.name
                 && r.value[k].postings[0].amount == ts[k].postings[0].amount
  {
    ReadSavedLedger(ts, today);
  }

  function Entry(name: string, cents: int): Posting {
    Posting(Account(name, None), Some(cents))
  }

  /** A transaction of the read test: an expense paid from checking. */
  function Purchase(date: Date, description: string, expense: string, cents: int): (t: Transaction)
    requires IsAccountName(expense) && NoLineTerminator(description) && description != [] && description[0] != ' '
    ensures Writable(t) && |t.postings| == 2
  {
    var t := Transaction(date, description, [Entry(expense, cents), Entry("Assets:Checking", -cents)]);
    assert IsAccountName("Assets:Checking");
    t
  }

  function Coffee(): (t: Transaction)
    ensures Writable(t) && |t.postings| == 2
  {
    assert IsAccountName("Expenses:Coffee") && NoLineTerminator("Coffee Shop");
    Purchase(CalendarDate(2024, 7, 29), "Coffee Shop", "Expenses:Coffee", 500)
  }

  function Groceries(): (t: Transaction)
    ensures Writable(t) && |t.postings| == 2
  {
    assert IsAccountName("Expenses:Groceries") && NoLineTerminator("Supermarket");
    Purchase(CalendarDate(2024, 7, 30), "Supermarket", "Expenses:Groceries", 15000)
  }

  function FillUp(): (t: Transaction)
    ensures Writable(t) && |t.postings| == 2
  {
    assert IsAccountName("Expenses:Gas") && NoLineTerminator("Gas Station");
    Purchase(CalendarDate(2024, 7, 31), "Gas Station", "Expenses:Gas", 4500)
  }

  /** A ledger with the three transactions the read test expects: a coffee, a
      grocery run and a fill-up, each paid from checking. */
  function SampleLedger(): (ts: seq<Transaction>)
    ensures |ts| == 3 && forall k | 0 <= k < 3 :: Writable(ts[k]) && |ts[k].postings| == 2
  {
    [Coffee(), Groceries(), FillUp()]
  }

  /** The read result's `k`th transaction, as the read test inspects it. */
  predicate ReadsAs(t: Transaction, date: Date, description: string, account: string, cents: int) {
    && t.date == date && t.description == description && |t.postings| == 2
    && t.postings[0].account.name == account && t.postings[0].amount == Some(cents)
  }

  /** Reading the sample ledger gives what the read test asserts: three
      transactions, with their dates, descriptions, two postings each, and the
      first posting's account and amount. */
  lemma ReadSampleLedger(ts: seq<Transaction>, today: Date)
    requires ts == SampleLedger()
    ensures var r := ReadLedger(SplitLines(SerializeAll(ts)), today);
            && r.Ok? && |r.value| == 3
            && ReadsAs(r.value[0], CalendarDate(2024, 7, 29), "Coffee Shop", "Expenses:Coffee", 500)
            && ReadsAs(r.value[1], CalendarDate(2024, 7, 30), "Supermarket", "Expenses:Groceries", 15000)
            && ReadsAs(r.value[2], CalendarDate(2024, 7, 31), "Gas Station", "Expenses:Gas", 4500)
  {
    ReadThreeTransactions(ts, today);
  }
}
