/** What the reader makes of what the writer appends: a transaction saved to a
    ledger is read back, after the transactions already there. */
module RoundTrip {
  import opened Wrappers
  import opened Text
  import opened Amounts
  import opened Dates
  import opened Model
  import opened Lines
  import opened LineParser
  import opened Reader
  import opened Writer

  /** A posting as the reader builds it back: the account is made from the name
      alone, with the posting's amount as its balance. */
  function Reread(p: Posting): Posting {
    Posting(Account(p.account.name, p.amount), p.amount)
  }

  function RereadAll(ps: seq<Posting>): (r: seq<Posting>)
    ensures |r| == |ps| && forall k | 0 <= k < |ps| :: r[k] == Reread(ps[k])
    decreases |ps|
  {
    if ps == [] then [] else RereadAll(ps[..|ps| - 1]) + [Reread(ps[|ps| - 1])]
  }

  /** A transaction as it reads back. */
  function Normalized(t: Transaction): Transaction {
    Transaction(t.date, t.description, RereadAll(t.postings))
  }

  /** A read result once more lines follow a header: the trailing transaction
      stays only if it has postings. */
  function Settled(ts: seq<Transaction>): seq<Transaction>
    requires |ts| >= 1
  {
    if ts[|ts| - 1].postings == [] then ts[..|ts| - 1] else ts
  }

  /** A written posting line: the indent, the name, the gap and the amount token. */
  lemma PostingTextParts(p: Posting)
    requires p.amount.Some?
    ensures PostingText(p) == "    " + p.account.name + "    " + ("$" + FormatCents(p.amount.value))
  {
    var name, f := p.account.name, FormatCents(p.amount.value);
    assert AmountText(p.amount) == f;
    assert "    $" == "    " + "$";
    AppendAssoc("    " + name, "    ", "$" + f);
    AppendAssoc("    " + name + "    ", "$", f);
  }

  /** A line that starts with a space is never a header. */
  lemma IndentedNotHeader(line: string)
    requires |line| > 0 && line[0] == ' '
    ensures MatchHeader(line).None?
  {
    if |line| >= 11 {
      assert line[..10][..4][0] == ' ';
    }
  }

  /** A written posting line is not a header, and reads back as its posting. */
  lemma PostingLineReads(p: Posting)
    requires p.amount.Some? && IsAccountName(p.account.name)
    ensures MatchHeader(PostingText(p)).None?
    ensures LinePostings(PostingText(p)) == [Reread(p)]
  {
    var name, line := p.account.name, PostingText(p);
    var token := "$" + FormatCents(p.amount.value);
    PostingTextParts(p);
    FormatCentsDecodes(p.amount.value);
    WrittenPostingMatches(name, token);
    IndentedNotHeader(line);
  }

  /** No rest of a line that ends in "$nu" is accepted after an account name. */
  lemma NullTailNotAccepted(s: string)
    requires |s| >= 3 && s[|s| - 3..] == "$nu"
    ensures !RestAccepted(s)
  {
    var n := WhitespaceRun(s);
    var t := s[n..];
    assert s[|s| - 1] == 'u' && !IsWhitespace(s[|s| - 1]);
    assert n < |s|;
    if |t| >= 3 {
      assert t[|t| - 3] == s[|s| - 3] == '$';
    }
  }

  /** The engine gives back every name character when no end of the name lets
      the rest match. */
  lemma {:induction false} AccountEndGivesUp(line: string, w: nat, e: nat)
    requires w <= e <= |line|
    requires forall i | w < i <= e :: !AcceptedFrom(line, i)
    ensures AccountEnd(line, w, e) == w
    decreases e
  {
    if e > w {
      AccountEndGivesUp(line, w, e - 1);
    }
  }

  /** A posting saved without an amount is written with "$nu" where the amount
      goes; that line is neither a header nor a posting line, so reading the
      ledger back skips it and the posting is lost. */
  lemma AbsentAmountLineIgnored(p: Posting)
    requires p.amount.None? && IsAccountName(p.account.name)
    ensures MatchHeader(PostingText(p)).None? && MatchPosting(PostingText(p)).None?
  {
    var name := p.account.name;
    var line := PostingText(p);
    var rest := "    $nu";
    assert line == "    " + name + rest;
    IndentedNotHeader(line);
    WrittenPostingRuns(line, name, rest);
    var e := 4 + |name|;
    forall i | 4 < i <= e
      ensures !AcceptedFrom(line, i)
    {
      assert line[i..][|line[i..]| - 3..] == "$nu";
      NullTailNotAccepted(line[i..]);
    }
    AccountEndGivesUp(line, 4, e);
  }

  /** The written posting lines add their postings, read back, in order. */
  lemma {:induction false} ScanPostingLines(st: ScanState, ps: seq<Posting>)
    requires forall k | 0 <= k < |ps| :: ps[k].amount.Some? && IsAccountName(ps[k].account.name)
    ensures Scan(st, PostingLines(ps)) == Ok(st.(postings := st.postings + RereadAll(ps)))
    decreases |ps|
  {
    if ps == [] {
      assert st.postings + [] == st.postings;
    } else {
      var init, last := ps[..|ps| - 1], ps[|ps| - 1];
      ScanPostingLines(st, init);
      assert PostingLines(ps) == PostingLines(init) + [PostingText(last)] by {
        PostingLinesSnoc(ps, |ps| - 1);
        assert ps[..|ps|] == ps;
      }
      ScanAppend(st, PostingLines(init), [PostingText(last)]);
      PostingLineReads(last);
      ScanNonHeader(st.(postings := st.postings + RereadAll(init)), PostingText(last));
      assert ps[..|ps| - 1] == init;
      assert RereadAll(ps) == RereadAll(init) + [Reread(last)];
      AppendAssoc(st.postings, RereadAll(init), [Reread(last)]);
    }
  }

  /** The written header flushes what was pending and starts the transaction;
      its posting lines then fill it. */
  lemma ScanBody(st: ScanState, t: Transaction)
    requires Writable(t)
    ensures Scan(st, BodyLines(t)) == Ok(ScanState(t.date, t.description, RereadAll(t.postings), Flushed(st)))
  {
    WrittenHeaderMatches(FormatDate(t.date), t.description);
    ParseFormatDate(t.date);
    var s1 := ScanState(t.date, t.description, [], Flushed(st));
    assert Step(st, HeaderText(t)) == Ok(s1);
    assert BodyLines(t) == [HeaderText(t)] + PostingLines(t.postings);
    ScanAppend(st, [HeaderText(t)], PostingLines(t.postings));
    assert [HeaderText(t)][1..] == [];
    ScanPostingLines(s1, t.postings);
    assert [] + RereadAll(t.postings) == RereadAll(t.postings);
  }

  /** A blank line changes nothing. */
  lemma ScanBlankLine(st: ScanState, rest: seq<string>)
    ensures Scan(st, [""] + rest) == Scan(st, rest)
  {
    assert ([""] + rest)[0] == "" && ([""] + rest)[1..] == rest;
    assert WhitespaceRun("") == 0;
  }

  /** The lines of a ledger after a save: the old lines, at most one blank line,
      then the header and posting lines. */
  lemma SavedLines(content: string, t: Transaction)
    requires Writable(t)
    ensures SplitLines(content + Serialize(t)) == SplitLines(content) + BlankLineAfter(content) + BodyLines(t)
  {
    var x := JoinLines(BodyLines(t));
    assert content + Serialize(t) == content + "\n" + x by {
      SerializeStartsWithBreak(t);
    }
    assert SplitLines(content + "\n" + x) == SplitLines(content) + BlankLineAfter(content) + SplitLines(x) by {
      SplitLinesAfterNewline(content, x);
    }
    assert SplitLines(x) == BodyLines(t) by {
      BodyLinesSplit(t);
    }
  }

  /** At most one blank line, then the lines of a saved transaction: it flushes
      what was pending and becomes the new pending transaction. */
  lemma ScanAfterBlank(st: ScanState, blank: seq<string>, t: Transaction)
    requires Writable(t) && (blank == [] || blank == [""])
    ensures Scan(st, blank + BodyLines(t)) == Ok(ScanState(t.date, t.description, RereadAll(t.postings), Flushed(st)))
  {
    if blank == [""] {
      ScanBlankLine(st, BodyLines(t));
    } else {
      assert blank + BodyLines(t) == BodyLines(t);
    }
    ScanBody(st, t);
  }

  /** The read result of a scan, once a further header has flushed it. */
  lemma SettledPending(s: ScanState)
    ensures Settled(s.transactions + [Pending(s)]) == Flushed(s)
  {
    assert (s.transactions + [Pending(s)])[..|s.transactions|] == s.transactions;
  }

  /** Saving a transaction to a ledger that reads as `before` makes it read as
      `before`, with its trailing transaction dropped if that has no postings,
      followed by the saved transaction. */
  lemma ReadAfterSave(content: string, t: Transaction, today: Date)
    requires Writable(t)
    requires ReadLedger(SplitLines(content), today).Ok?
    ensures ReadLedger(SplitLines(content + Serialize(t)), today)
            == Ok(Settled(ReadLedger(SplitLines(content), today).value) + [Normalized(t)])
  {
    var before := SplitLines(content);
    var blank := BlankLineAfter(content);
    var body := BodyLines(t);
    SavedLines(content, t);
    AppendAssoc(before, blank, body);
    ScanAppend(Initial(today), before, blank + body);
    var s := Scan(Initial(today), before).value;
    ScanAfterBlank(s, blank, t);
    SettledPending(s);
  }

  /** An empty ledger reads as one transaction dated today, without postings,
      which the next header drops. */
  lemma EmptyLedgerReads(today: Date)
    ensures ReadLedger(SplitLines(""), today).Ok?
    ensures Settled(ReadLedger(SplitLines(""), today).value) == []
  {
    assert SplitLines("") == [];
    assert Scan(Initial(today), []) == Ok(Initial(today));
    var empty := [Transaction(today, "", [])];
    assert [] + [Pending(Initial(today))] == empty;
    assert ReadLedger([], today) == Ok(empty);
  }

  /** Saving one transaction to an empty ledger reads back exactly that transaction. */
  lemma ReadSavedTransaction(t: Transaction, today: Date)
    requires Writable(t)
    ensures ReadLedger(SplitLines(Serialize(t)), today) == Ok([Normalized(t)])
  {
    EmptyLedgerReads(today);
    ReadAfterSave("", t, today);
    assert "" + Serialize(t) == Serialize(t);
    assert [] + [Normalized(t)] == [Normalized(t)];
  }

  /** The text of a ledger built by saving these transactions in order. */
  function SerializeAll(ts: seq<Transaction>): string
    decreases |ts|
  {
    if ts == [] then "" else SerializeAll(ts[..|ts| - 1]) + Serialize(ts[|ts| - 1])
  }

  function NormalizedAll(ts: seq<Transaction>): (r: seq<Transaction>)
    ensures |r| == |ts| && forall k | 0 <= k < |ts| :: r[k] == Normalized(ts[k])
    decreases |ts|
  {
    if ts == [] then [] else NormalizedAll(ts[..|ts| - 1]) + [Normalized(ts[|ts| - 1])]
  }

  /** Saving one more transaction after a ledger whose last transaction has a
      posting appends it to what the ledger read as. */
  lemma SaveAfterPosted(before: string, prior: seq<Transaction>, t: Transaction, today: Date)
    requires Writable(t)
    requires |prior| >= 1 && prior[|prior| - 1].postings != []
    requires ReadLedger(SplitLines(before), today) == Ok(prior)
    ensures ReadLedger(SplitLines(before + Serialize(t)), today) == Ok(prior + [Normalized(t)])
  {
    ReadAfterSave(before, t, today);
  }

  /** However the clock reads, the ledger text `text` reads as `read`. */
  ghost predicate ReadsBackAs(text: string, read: seq<Transaction>) {
    forall today: Date :: ReadLedger(SplitLines(text), today) == Ok(read)
  }

  /** However the clock reads, the ledger saved from `ts` reads back as `ts`. */
  ghost predicate SavedReadsBack(ts: seq<Transaction>) {
    ReadsBackAs(SerializeAll(ts), NormalizedAll(ts))
  }

  predicate AllWritable(ts: seq<Transaction>) {
    forall k | 0 <= k < |ts| :: Writable(ts[k])
  }

  /** What holds of a sequence of transactions holds of all but its last. */
  lemma SavedInit(ts: seq<Transaction>, init: seq<Transaction>)
    requires |ts| >= 1 && init == ts[..|ts| - 1] && AllWritable(ts)
    requires forall k | 0 <= k < |ts| - 1 :: ts[k].postings != []
    ensures AllWritable(init)
    ensures forall k | 0 <= k < |init| - 1 :: init[k].postings != []
  {
  }

  /** One transaction saved to an empty ledger, whatever the clock reads. */
  lemma ReadsBackOne(t: Transaction)
    requires Writable(t)
    ensures ReadsBackAs(Serialize(t), [Normalized(t)])
  {
    forall today: Date ensures ReadLedger(SplitLines(Serialize(t)), today) == Ok([Normalized(t)]) {
      ReadSavedTransaction(t, today);
    }
  }

  /** One more save, whatever the clock reads. */
  lemma ReadsBackAfterSave(text: string, read: seq<Transaction>, t: Transaction)
    requires Writable(t) && |read| >= 1 && read[|read| - 1].postings != []
    requires ReadsBackAs(text, read)
    ensures ReadsBackAs(text + Serialize(t), read + [Normalized(t)])
  {
    forall today: Date ensures ReadLedger(SplitLines(text + Serialize(t)), today) == Ok(read + [Normalized(t)]) {
      SaveAfterPosted(text, read, t, today);
    }
  }

  /** Saving one more transaction appends its text to the file. */
  lemma SerializeSnoc(init: seq<Transaction>, last: Transaction)
    ensures SerializeAll(init + [last]) == SerializeAll(init) + Serialize(last)
  {
    var ts := init + [last];
    assert ts[..|ts| - 1] == init;
  }

  /** Saving one more transaction appends its read-back form to what is read;
      a posting survives the read-back. */
  lemma NormalizedSnoc(init: seq<Transaction>, last: Transaction)
    ensures NormalizedAll(init + [last]) == NormalizedAll(init) + [Normalized(last)]
    ensures |init| >= 1 && init[|init| - 1].postings != [] ==> NormalizedAll(init)[|init| - 1].postings != []
  {
    var ts := init + [last];
    assert ts[..|ts| - 1] == init;
    if |init| >= 1 {
      assert |RereadAll(init[|init| - 1].postings)| == |init[|init| - 1].postings|;
    }
  }

  lemma SavedOneReadsBack(t: Transaction)
    requires Writable(t)
    ensures SavedReadsBack([t])
  {
    ReadsBackOne(t);
    SerializeSnoc([], t);
    NormalizedSnoc([], t);
    assert [] + [t] == [t];
  }

  /** A non-empty sequence is its front followed by its last element. */
  lemma FrontAndLast<T>(s: seq<T>)
    requires |s| >= 1
    ensures s == s[..|s| - 1] + [s[|s| - 1]] && (|s| == 1 ==> s == [s[0]])
  {
  }

  /** One more save after a ledger whose last transaction has a posting. */
  lemma SavedNextReadsBack(init: seq<Transaction>, last: Transaction)
    requires |init| >= 1 && Writable(last)
    requires init[|init| - 1].postings != []
    requires SavedReadsBack(init)
    ensures SavedReadsBack(init + [last])
  {
    SerializeSnoc(init, last);
    NormalizedSnoc(init, last);
    ReadsBackAfterSave(SerializeAll(init), NormalizedAll(init), last);
  }

  lemma {:induction false} SavedLedgerReadsBack(ts: seq<Transaction>)
    requires |ts| >= 1
    requires forall k | 0 <= k < |ts| :: Writable(ts[k])
    requires forall k | 0 <= k < |ts| - 1 :: ts[k].postings != []
    ensures SavedReadsBack(ts)
    decreases |ts|
  {
    FrontAndLast(ts);
    if |ts| == 1 {
      SavedOneReadsBack(ts[0]);
    } else {
      var init := ts[..|ts| - 1];
      SavedInit(ts, init);
      SavedLedgerReadsBack(init);
      SavedNextReadsBack(init, ts[|ts| - 1]);
    }
  }

  /** A ledger built by saving transactions in order reads back as those
      transactions, in that order, when each but the last has a posting (a
      transaction without postings is lost once another header follows). */
  lemma ReadSavedLedger(ts: seq<Transaction>, today: Date)
    requires |ts| >= 1
    requires forall k | 0 <= k < |ts| :: Writable(ts[k])
    requires forall k | 0 <= k < |ts| - 1 :: ts[k].postings != []
    ensures ReadLedger(SplitLines(SerializeAll(ts)), today) == Ok(NormalizedAll(ts))
  {
    SavedLedgerReadsBack(ts);
  }
}
