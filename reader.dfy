/** The reading side of the ledger store as functions over the file's lines: a
    scan folds each line into an accumulator holding the current date, the
    current description, the postings seen since the last header and the
    transactions emitted so far. */
module Reader {
  import opened Wrappers
  import opened Text
  import opened Amounts
  import opened Dates
  import opened Model
  import opened LineParser

  /** `str == null || str.isEmpty()`, applied to the amount group: true for an
      absent group, false for any amount token. */
  function IsNullOrEmpty(s: Option<string>): (b: bool)
    ensures s.None? ==> b
    ensures s.Some? && IsAmountToken(s.value) ==> !b
  {
    s.None? || s.value == []
  }

  /** The amount group is never present and empty: a missing amount is exactly
      an absent group. */
  lemma AmountGroupNeverEmpty(line: string)
    requires MatchPosting(line).Some?
    ensures IsNullOrEmpty(MatchPosting(line).value.amountText) <==> MatchPosting(line).value.amountText.None?
  {
    var g := MatchPosting(line).value.amountText;
    if g.Some? {
      assert |g.value| >= 4;
    }
  }

  /** The posting a matched line contributes. Its account is built on the spot
      from the name, with the posting's amount as its balance. */
  function PostingOf(f: PostingFields): (p: Posting)
    requires f.amountText.Some? ==> IsAmountToken(f.amountText.value)
    ensures p.account.name == f.accountName
    ensures p.account.balance == p.amount
    ensures p.amount.None? <==> f.amountText.None?
    ensures p.amount.Some? ==> p.amount.value == DecodeAmount(f.amountText.value)
  {
    var amount := if IsNullOrEmpty(f.amountText) then None else Some(DecodeAmount(f.amountText.value));
    Posting(Account(f.accountName, amount), amount)
  }

  /** The local variables of the reading loop. */
  datatype ScanState = ScanState(date: Date, description: string, postings: seq<Posting>, transactions: seq<Transaction>)

  /** Before the first line: today's date, an empty description, nothing seen. */
  function Initial(today: Date): (st: ScanState)
    ensures st.transactions == [] && Pending(st) == Transaction(today, "", [])
  {
    ScanState(today, "", [], [])
  }

  /** The transaction being accumulated. */
  function Pending(st: ScanState): Transaction {
    Transaction(st.date, st.description, st.postings)
  }

  /** The transactions after a header: the pending one is emitted only when it
      has postings. */
  function Flushed(st: ScanState): (ts: seq<Transaction>)
    ensures st.transactions <= ts
    ensures st.postings == [] ==> ts == st.transactions
    ensures st.postings != [] ==> |ts| == |st.transactions| + 1 && ts[|ts| - 1] == Pending(st)
  {
    if st.postings == [] then st.transactions else st.transactions + [Pending(st)]
  }

  /** The effect of one line: a header flushes and starts a new transaction (or
      fails on a date `LocalDate.parse` refuses), a posting line adds a posting,
      any other line changes nothing. */
  function Step(st: ScanState, line: string): (r: Result<ScanState, DateError>)
    ensures r.Ok? && WellFormed(st) ==> WellFormed(r.value)
    ensures r.Ok? ==> st.transactions <= r.value.transactions
  {
    match MatchHeader(line)
    case Some(h) =>
      (match ParseDate(h.dateText)
       case Err(e) => Err(e)
       case Ok(d) =>
         FlushedWellFormed(st);
         Ok(ScanState(d, h.description, [], Flushed(st))))
    case None =>
      (match MatchPosting(line)
       case Some(f) =>
         AddedPostingWellFormed(st, PostingOf(f));
         Ok(st.(postings := st.postings + [PostingOf(f)]))
       case None => Ok(st))
  }

  /** A parsed posting names its account by a `[\w:]+` name and gives the
      account its own amount as balance. */
  predicate PostingWellFormed(p: Posting) {
    IsAccountName(p.account.name) && p.account.balance == p.amount
  }

  predicate AllPostingsWellFormed(ps: seq<Posting>) {
    forall k | 0 <= k < |ps| :: PostingWellFormed(ps[k])
  }

  /** What the reading loop keeps true: well-formed postings, and no emitted
      transaction without postings. */
  predicate WellFormed(st: ScanState) {
    && AllPostingsWellFormed(st.postings)
    && forall k | 0 <= k < |st.transactions| ::
         st.transactions[k].postings != [] && AllPostingsWellFormed(st.transactions[k].postings)
  }

  lemma FlushedWellFormed(st: ScanState)
    ensures st.transactions <= Flushed(st)
    ensures WellFormed(st) ==> WellFormed(ScanState(st.date, st.description, [], Flushed(st)))
  {
  }

  lemma AddedPostingWellFormed(st: ScanState, p: Posting)
    requires PostingWellFormed(p)
    ensures WellFormed(st) ==> WellFormed(st.(postings := st.postings + [p]))
  {
  }

  /** The loop over the remaining lines; the first failing header ends it. */
  function Scan(st: ScanState, lines: seq<string>): (r: Result<ScanState, DateError>)
    ensures r.Ok? && WellFormed(st) ==> WellFormed(r.value)
    ensures r.Ok? ==> st.transactions <= r.value.transactions
    decreases |lines|
  {
    if lines == [] then Ok(st)
    else
      match Step(st, lines[0])
      case Err(e) => Err(e)
      case Ok(next) => Scan(next, lines[1..])
  }

  /** `getAllTransactions` on a file with these lines: the scan, then the last
      transaction, emitted whether or not it has postings. */
  function ReadLedger(lines: seq<string>, today: Date): (r: Result<seq<Transaction>, DateError>)
    ensures r.Ok? ==> |r.value| >= 1
    ensures r.Ok? ==> forall k | 0 <= k < |r.value| - 1 :: r.value[k].postings != []
    ensures r.Ok? ==> forall k | 0 <= k < |r.value| :: AllPostingsWellFormed(r.value[k].postings)
  {
    match Scan(Initial(today), lines)
    case Err(e) => Err(e)
    case Ok(s) => Ok(s.transactions + [Pending(s)])
  }

  // ----- failure -----

  /** A header line whose date `LocalDate.parse` refuses. */
  predicate BadHeader(line: string) {
    MatchHeader(line).Some? && ParseDate(MatchHeader(line).value.dateText).Err?
  }

  /** The scan fails exactly when some line is a header with a refused date, and
      then it reports the date text of the first such header. */
  lemma {:induction false} ScanFails(st: ScanState, lines: seq<string>)
    ensures Scan(st, lines).Err? <==> exists k | 0 <= k < |lines| :: BadHeader(lines[k])
    ensures Scan(st, lines).Err? ==>
              exists k | 0 <= k < |lines| ::
                && BadHeader(lines[k])
                && (forall j | 0 <= j < k :: !BadHeader(lines[j]))
                && Scan(st, lines).error == DateTimeParseError(MatchHeader(lines[k]).value.dateText)
    decreases |lines|
  {
    if lines != [] {
      if BadHeader(lines[0]) {
        assert Scan(st, lines).error == DateTimeParseError(MatchHeader(lines[0]).value.dateText);
      } else {
        var next := Step(st, lines[0]).value;
        ScanFails(next, lines[1..]);
        forall k | 1 <= k < |lines|
          ensures lines[k] == lines[1..][k - 1]
        {
        }
        if exists k | 0 <= k < |lines| :: BadHeader(lines[k]) {
          var k :| 0 <= k < |lines| && BadHeader(lines[k]);
          assert BadHeader(lines[1..][k - 1]);
        }
        if Scan(st, lines).Err? {
          var k :| && 0 <= k < |lines[1..]| && BadHeader(lines[1..][k])
                   && (forall j | 0 <= j < k :: !BadHeader(lines[1..][j]))
                   && Scan(next, lines[1..]).error == DateTimeParseError(MatchHeader(lines[1..][k]).value.dateText);
          assert lines[k + 1] == lines[1..][k];
          forall j | 0 <= j < k + 1
            ensures !BadHeader(lines[j])
          {
            if j > 0 {
              assert lines[j] == lines[1..][j - 1];
            }
          }
        }
      }
    }
  }

  /** A read fails exactly when the file has a header with a refused date. */
  lemma ReadLedgerFails(lines: seq<string>, today: Date)
    ensures ReadLedger(lines, today).Err? <==> exists k | 0 <= k < |lines| :: BadHeader(lines[k])
  {
    ScanFails(Initial(today), lines);
  }

  // ----- composition -----

  /** Scanning two runs of lines is scanning the first, then the second from
      where the first left off. */
  lemma {:induction false} ScanAppend(st: ScanState, a: seq<string>, b: seq<string>)
    ensures Scan(st, a).Err? ==> Scan(st, a + b) == Scan(st, a)
    ensures Scan(st, a).Ok? ==> Scan(st, a + b) == Scan(Scan(st, a).value, b)
    decreases |a|
  {
    if a == [] {
      assert a + b == b;
    } else {
      assert (a + b)[0] == a[0];
      assert (a + b)[1..] == a[1..] + b;
      if Step(st, a[0]).Ok? {
        ScanAppend(Step(st, a[0]).value, a[1..], b);
      }
    }
  }

  /** A line that is neither a header nor a posting (a blank line, a comment, a
      header with a tab after the date) can be dropped without changing the read. */
  lemma NoiseLineIgnored(lines: seq<string>, i: nat, today: Date)
    requires i < |lines|
    requires MatchHeader(lines[i]).None? && MatchPosting(lines[i]).None?
    ensures ReadLedger(lines, today) == ReadLedger(lines[..i] + lines[i + 1..], today)
  {
    assert lines == lines[..i] + ([lines[i]] + lines[i + 1..]);
    ScanAppend(Initial(today), lines[..i], [lines[i]] + lines[i + 1..]);
    ScanAppend(Initial(today), lines[..i], lines[i + 1..]);
    if Scan(Initial(today), lines[..i]).Ok? {
      var s := Scan(Initial(today), lines[..i]).value;
      assert ([lines[i]] + lines[i + 1..])[0] == lines[i];
      assert ([lines[i]] + lines[i + 1..])[1..] == lines[i + 1..];
      assert Step(s, lines[i]) == Ok(s);
    }
  }

  /** Of two headers in a row the first is lost: with a date that parses, it can
      be dropped without changing the read. */
  lemma HeaderAfterHeader(lines: seq<string>, i: nat, today: Date)
    requires i + 1 < |lines|
    requires MatchHeader(lines[i]).Some? && MatchHeader(lines[i + 1]).Some?
    requires ParseDate(MatchHeader(lines[i]).value.dateText).Ok?
    ensures ReadLedger(lines, today) == ReadLedger(lines[..i] + lines[i + 1..], today)
  {
    var rest := lines[i + 2..];
    assert lines == lines[..i] + ([lines[i], lines[i + 1]] + rest);
    assert lines[i + 1..] == [lines[i + 1]] + rest;
    ScanAppend(Initial(today), lines[..i], [lines[i], lines[i + 1]] + rest);
    ScanAppend(Initial(today), lines[..i], [lines[i + 1]] + rest);
    if Scan(Initial(today), lines[..i]).Ok? {
      var s := Scan(Initial(today), lines[..i]).value;
      var s1 := Step(s, lines[i]).value;
      assert s1.postings == [] && Flushed(s1) == Flushed(s);
      assert Step(s1, lines[i + 1]) == Step(s, lines[i + 1]);
      assert ([lines[i], lines[i + 1]] + rest)[1..] == [lines[i + 1]] + rest;
    }
  }

  // ----- a ledger without headers -----

  /** The posting a line contributes, if it is a posting line. */
  function LinePostings(line: string): (ps: seq<Posting>)
    ensures |ps| <= 1
  {
    match MatchPosting(line)
    case Some(f) => [PostingOf(f)]
    case None => []
  }

  /** The postings of the posting lines among `lines`, in order. */
  function PostingsIn(lines: seq<string>): (ps: seq<Posting>)
    ensures |ps| <= |lines|
    decreases |lines|
  {
    if lines == [] then [] else PostingsIn(lines[..|lines| - 1]) + LinePostings(lines[|lines| - 1])
  }

  /** Scanning one line that is not a header adds its posting, if any. */
  lemma ScanNonHeader(st: ScanState, line: string)
    requires MatchHeader(line).None?
    ensures Scan(st, [line]) == Ok(st.(postings := st.postings + LinePostings(line)))
  {
    assert [line][1..] == [];
    if MatchPosting(line).None? {
      assert st.postings + [] == st.postings;
    }
    assert Step(st, line) == Ok(st.(postings := st.postings + LinePostings(line)));
  }

  /** Without headers, the scan only appends the postings of the posting lines. */
  lemma {:induction false} ScanWithoutHeaders(st: ScanState, lines: seq<string>)
    requires forall k | 0 <= k < |lines| :: MatchHeader(lines[k]).None?
    ensures Scan(st, lines) == Ok(st.(postings := st.postings + PostingsIn(lines)))
    decreases |lines|
  {
    if lines == [] {
      assert st.postings + [] == st.postings;
    } else {
      var init, last := lines[..|lines| - 1], lines[|lines| - 1];
      var s := st.(postings := st.postings + PostingsIn(init));
      assert lines == init + [last];
      assert Scan(st, init) == Ok(s) by {
        ScanWithoutHeaders(st, init);
      }
      assert Scan(s, [last]) == Ok(s.(postings := s.postings + LinePostings(last))) by {
        ScanNonHeader(s, last);
      }
      ScanAppend(st, init, [last]);
      assert PostingsIn(lines) == PostingsIn(init) + LinePostings(last);
      AppendAssoc(st.postings, PostingsIn(init), LinePostings(last));
    }
  }

  /** A ledger without any header reads as one transaction dated today, with an
      empty description and every posting of the file, possibly none. */
  lemma LedgerWithoutHeaders(lines: seq<string>, today: Date)
    requires forall k | 0 <= k < |lines| :: MatchHeader(lines[k]).None?
    ensures ReadLedger(lines, today) == Ok([Transaction(today, "", PostingsIn(lines))])
  {
    var ps := PostingsIn(lines);
    var s := ScanState(today, "", ps, []);
    assert Scan(Initial(today), lines) == Ok(s) by {
      ScanWithoutHeaders(Initial(today), lines);
      assert Initial(today).(postings := Initial(today).postings + ps) == s by { assert [] + ps == ps; }
    }
    ReadAfterScan(lines, today, s);
    assert s.transactions + [Pending(s)] == [Transaction(today, "", ps)];
  }

  // ----- headers and the lines under them -----

  /** A header line followed by lines that are not headers (posting lines and
      noise in any order): the header flushes what was pending and starts a
      transaction with its date and description, which collects the postings of
      the lines below it. */
  lemma ScanHeaderBlock(st: ScanState, header: string, body: seq<string>)
    requires MatchHeader(header).Some? && ParseDate(MatchHeader(header).value.dateText).Ok?
    requires forall k | 0 <= k < |body| :: MatchHeader(body[k]).None?
    ensures Scan(st, [header] + body)
              == Ok(ScanState(ParseDate(MatchHeader(header).value.dateText).value,
                              MatchHeader(header).value.description, PostingsIn(body), Flushed(st)))
  {
    var h := MatchHeader(header).value;
    var s1 := ScanState(ParseDate(h.dateText).value, h.description, [], Flushed(st));
    assert ([header] + body)[0] == header;
    assert ([header] + body)[1..] == body;
    assert Step(st, header) == Ok(s1);
    ScanWithoutHeaders(s1, body);
    assert [] + PostingsIn(body) == PostingsIn(body);
  }

  /** A header line and the lines up to the next header, with what they read
      as: the header's date and description, and the postings of the lines. */
  datatype HeaderBlock = HeaderBlock(header: string, body: seq<string>,
                                     date: Date, description: string, postings: seq<Posting>)

  /** The header matches, with a date `LocalDate.parse` accepts and reads as
      `date`, and the description `description`; no line of the body is a
      header, and `postings` are the postings of its posting lines. */
  predicate GoodBlock(b: HeaderBlock) {
    && MatchHeader(b.header).Some?
    && ParseDate(MatchHeader(b.header).value.dateText) == Ok(b.date)
    && MatchHeader(b.header).value.description == b.description
    && (forall k | 0 <= k < |b.body| :: MatchHeader(b.body[k]).None?)
    && PostingsIn(b.body) == b.postings
  }

  predicate AllGoodBlocks(bs: seq<HeaderBlock>) {
    forall k | 0 <= k < |bs| :: GoodBlock(bs[k])
  }

  /** The lines of a file made of header blocks, in order. */
  function BlockLines(bs: seq<HeaderBlock>): seq<string> {
    if bs == [] then [] else [bs[0].header] + bs[0].body + BlockLines(bs[1..])
  }

  /** The transaction a block stands for: the header's date and description, and
      the postings of the body. */
  function BlockTransaction(b: HeaderBlock): Transaction {
    Transaction(b.date, b.description, b.postings)
  }

  function BlockTransactions(bs: seq<HeaderBlock>): (ts: seq<Transaction>)
    ensures |ts| == |bs| && forall k | 0 <= k < |bs| :: ts[k] == BlockTransaction(bs[k])
  {
    if bs == [] then [] else [BlockTransaction(bs[0])] + BlockTransactions(bs[1..])
  }

  lemma BlockTransactionsCons(b: HeaderBlock, bs: seq<HeaderBlock>)
    ensures BlockTransactions([b] + bs) == [BlockTransaction(b)] + BlockTransactions(bs)
  {
    assert ([b] + bs)[0] == b;
    assert ([b] + bs)[1..] == bs;
  }

  lemma BlockTransactionsSnoc(bs: seq<HeaderBlock>)
    requires |bs| >= 1
    ensures BlockTransactions(bs[..|bs| - 1]) + [BlockTransaction(bs[|bs| - 1])] == BlockTransactions(bs)
  {
    var n := |bs|;
    var init := bs[..n - 1];
    var all := BlockTransactions(bs);
    var l := BlockTransactions(init) + [BlockTransaction(bs[n - 1])];
    assert |l| == n;
    forall k | 0 <= k < n ensures l[k] == all[k] {
      if k < n - 1 {
        assert init[k] == bs[k];
      }
    }
  }

  /** The scan state after a run of header blocks: the last block pending,
      after the given emitted transactions. */
  function LastBlockState(bs: seq<HeaderBlock>, emitted: seq<Transaction>): (st: ScanState)
    requires |bs| >= 1
    ensures Pending(st) == BlockTransaction(bs[|bs| - 1]) && st.transactions == emitted
  {
    var t := BlockTransaction(bs[|bs| - 1]);
    ScanState(t.date, t.description, t.postings, emitted)
  }

  /** All but the last element of a sequence of two or more: its head, then all
      but the last of its tail. */
  lemma InitOfCons<T>(s: seq<T>)
    requires |s| >= 2
    ensures s[..|s| - 1] == [s[0]] + s[1..][..|s| - 2]
  {
  }

  /** The scan state right after a block, its transaction pending. */
  function Opened(st: ScanState, b: HeaderBlock): (r: ScanState)
    ensures Pending(r) == BlockTransaction(b) && r.transactions == Flushed(st)
  {
    ScanState(b.date, b.description, b.postings, Flushed(st))
  }

  /** From any state, the block's lines flush what was pending and leave the
      block's transaction pending. */
  ghost predicate BlockScans(b: HeaderBlock) {
    forall st: ScanState :: Scan(st, [b.header] + b.body) == Ok(Opened(st, b))
  }

  ghost predicate AllBlocksScan(bs: seq<HeaderBlock>) {
    forall k | 0 <= k < |bs| :: BlockScans(bs[k])
  }

  /** A well-formed block scans as its header and postings say. */
  lemma GoodBlocksScan(bs: seq<HeaderBlock>)
    requires AllGoodBlocks(bs)
    ensures AllBlocksScan(bs)
  {
    forall k | 0 <= k < |bs| ensures BlockScans(bs[k]) {
      var b := bs[k];
      assert GoodBlock(b);
      forall st: ScanState ensures Scan(st, [b.header] + b.body) == Ok(Opened(st, b)) {
        ScanHeaderBlock(st, b.header, b.body);
      }
    }
  }

  /** What a run of blocks satisfies, its tail satisfies. */
  lemma BlocksTail(bs: seq<HeaderBlock>)
    requires |bs| >= 1 && AllBlocksScan(bs)
    requires forall k | 0 <= k < |bs| - 1 :: bs[k].postings != []
    ensures BlockScans(bs[0]) && AllBlocksScan(bs[1..])
    ensures forall k | 0 <= k < |bs| - 2 :: bs[1..][k].postings != []
  {
    forall k | 0 <= k < |bs| - 1 ensures BlockScans(bs[1..][k]) { assert bs[1..][k] == bs[k + 1]; }
    forall k | 0 <= k < |bs| - 2 ensures bs[1..][k].postings != [] { assert bs[1..][k] == bs[k + 1]; }
  }

  /** The first block of a run: its header and body leave its transaction
      pending, after flushing what was pending before. */
  lemma ScanFirstBlock(st: ScanState, b: HeaderBlock, rest: seq<HeaderBlock>)
    requires BlockScans(b)
    ensures Scan(st, BlockLines([b] + rest)) == Scan(Opened(st, b), BlockLines(rest))
  {
    assert ([b] + rest)[0] == b && ([b] + rest)[1..] == rest;
    assert BlockLines([b] + rest) == ([b.header] + b.body) + BlockLines(rest);
    assert Scan(st, [b.header] + b.body) == Ok(Opened(st, b));
    ScanAppend(st, [b.header] + b.body, BlockLines(rest));
  }

  /** From any state, a run of blocks scans to its last block pending, after
      the earlier blocks. */
  ghost predicate RunScans(bs: seq<HeaderBlock>)
    requires |bs| >= 1
  {
    forall st: ScanState ::
      Scan(st, BlockLines(bs)) == Ok(LastBlockState(bs, Flushed(st) + BlockTransactions(bs[..|bs| - 1])))
  }

  /** A single block is left pending. */
  lemma ScanOneBlock(bs: seq<HeaderBlock>)
    requires |bs| == 1 && BlockScans(bs[0])
    ensures RunScans(bs)
  {
    assert bs == [bs[0]] + [];
    assert BlockLines([]) == [];
    assert bs[..|bs| - 1] == [];
    forall st: ScanState
      ensures Scan(st, BlockLines(bs)) == Ok(LastBlockState(bs, Flushed(st) + BlockTransactions(bs[..|bs| - 1])))
    {
      ScanFirstBlock(st, bs[0], []);
      assert Flushed(st) + [] == Flushed(st);
    }
  }

  /** A block with postings is emitted when the next one starts, in front of
      what the rest of the run emits. */
  lemma ScanNextBlocks(bs: seq<HeaderBlock>)
    requires |bs| >= 2 && BlockScans(bs[0]) && bs[0].postings != [] && RunScans(bs[1..])
    ensures RunScans(bs)
  {
    var b, rest := bs[0], bs[1..];
    var t := BlockTransaction(b);
    assert bs == [b] + rest;
    assert rest[|rest| - 1] == bs[|bs| - 1];
    assert BlockTransactions(bs[..|bs| - 1]) == [t] + BlockTransactions(rest[..|rest| - 1]) by {
      InitOfCons(bs);
      BlockTransactionsCons(b, rest[..|rest| - 1]);
    }
    forall st: ScanState
      ensures Scan(st, BlockLines(bs)) == Ok(LastBlockState(bs, Flushed(st) + BlockTransactions(bs[..|bs| - 1])))
    {
      ScanFirstBlock(st, b, rest);
      assert Flushed(Opened(st, b)) == Flushed(st) + [t];
      AppendAssoc(Flushed(st), [t], BlockTransactions(rest[..|rest| - 1]));
    }
  }

  /** Scanning header blocks, each but the last with at least one posting: every
      block but the last is emitted, in order, and the last is pending. */
  lemma {:induction false} ScanBlocks(bs: seq<HeaderBlock>)
    requires |bs| >= 1 && AllBlocksScan(bs)
    requires forall k | 0 <= k < |bs| - 1 :: bs[k].postings != []
    ensures RunScans(bs)
    decreases |bs|
  {
    BlocksTail(bs);
    if |bs| == 1 {
      ScanOneBlock(bs);
    } else {
      ScanBlocks(bs[1..]);
      ScanNextBlocks(bs);
    }
  }

  /** A file of N header blocks, each header with a date that parses and each
      block but the last with at least one posting line, reads as exactly N
      transactions in file order, each with its header's date and description
      and the postings of the lines under it. */
  lemma ReadBlocks(bs: seq<HeaderBlock>, today: Date)
    requires |bs| >= 1 && AllGoodBlocks(bs)
    requires forall k | 0 <= k < |bs| - 1 :: bs[k].postings != []
    ensures ReadLedger(BlockLines(bs), today) == Ok(BlockTransactions(bs))
  {
    var n := |bs|;
    var s := LastBlockState(bs, BlockTransactions(bs[..n - 1]));
    assert Scan(Initial(today), BlockLines(bs)) == Ok(s) by {
      GoodBlocksScan(bs);
      ScanBlocks(bs);
      assert Flushed(Initial(today)) + BlockTransactions(bs[..n - 1]) == BlockTransactions(bs[..n - 1]);
    }
    ReadAfterScan(BlockLines(bs), today, s);
    BlockTransactionsSnoc(bs);
  }

  lemma ReadAfterScan(lines: seq<string>, today: Date, s: ScanState)
    requires Scan(Initial(today), lines) == Ok(s)
    ensures ReadLedger(lines, today) == Ok(s.transactions + [Pending(s)])
  {
  }
}
