/** The writing side of the ledger store: the text `saveTransaction` appends for
    one transaction. */
module Writer {
  import opened Wrappers
  import opened Text
  import opened Amounts
  import opened Dates
  import opened Model
  import opened Lines
  import opened LineParser

  /** Every posting has an amount: an absent one is written as a text no reader
      takes for an amount. */
  predicate AmountsPresent(t: Transaction) {
    forall k | 0 <= k < |t.postings| :: t.postings[k].amount.Some?
  }

  /** The header line: the date as `yyyy-MM-dd`, one space, the description. The
      header pattern gives back the date text and a description that has no line
      terminator and does not start with a space. */
  function HeaderText(t: Transaction): (h: string)
    ensures NoLineTerminator(t.description) && (t.description == [] || t.description[0] != ' ')
            ==> MatchHeader(h) == Some(HeaderFields(FormatDate(t.date), t.description))
  {
    var h := FormatDate(t.date) + " " + t.description;
    if NoLineTerminator(t.description) && (t.description == [] || t.description[0] != ' ') then
      WrittenHeaderMatches(FormatDate(t.date), t.description);
      h
    else h
  }

  /** `String.format("%.2f", amount)`: the amount with two decimals; for an absent
      amount the formatter prints "null" cut to the precision, two characters. */
  function AmountText(amount: Option<Cents>): (s: string)
    ensures amount.None? ==> s == "nu"
  {
    match amount
    case Some(c) => FormatCents(c)
    case None => "nu"
  }

  /** A posting line: four spaces, the account name, four spaces, `$` and the
      amount with two decimals, its sign after the `$`. For a `[\w:]+` name and a
      present amount, the posting pattern gives back the name and that token. */
  function PostingText(p: Posting): (line: string)
    ensures p.amount.Some? && IsAccountName(p.account.name)
            ==> MatchPosting(line) == Some(PostingFields(p.account.name, Some("$" + FormatCents(p.amount.value))))
  {
    var line := "    " + p.account.name + "    $" + AmountText(p.amount);
    if p.amount.Some? && IsAccountName(p.account.name) then
      var name, f := p.account.name, FormatCents(p.amount.value);
      assert line == "    " + name + "    " + ("$" + f) by {
        assert "    $" == "    " + "$";
        AppendAssoc("    " + name, "    ", "$" + f);
        AppendAssoc("    " + name + "    ", "$", f);
      }
      FormatCentsDecodes(p.amount.value);
      WrittenPostingMatches(name, "$" + f);
      line
    else line
  }

  /** The posting lines, one per posting, in order. */
  function PostingLines(ps: seq<Posting>): (lines: seq<string>)
    ensures |lines| == |ps|
    ensures forall k | 0 <= k < |ps| :: lines[k] == PostingText(ps[k])
  {
    seq(|ps|, k requires 0 <= k < |ps| => PostingText(ps[k]))
  }

  /** The lines written after the leading line break. */
  function BodyLines(t: Transaction): seq<string>
  {
    [HeaderText(t)] + PostingLines(t.postings)
  }

  /** Everything `saveTransaction` appends: a line break, then the header line and
      the posting lines, each followed by a line break. For a transaction the
      reader can take back, the text after that first line break reads as those
      lines again. */
  function Serialize(t: Transaction): (text: string)
    ensures |text| >= 1 && text[0] == '\n'
    ensures Writable(t) ==> SplitLines(text[1..]) == BodyLines(t)
  {
    var text := JoinLines([""] + BodyLines(t));
    assert ([""] + BodyLines(t))[1..] == BodyLines(t);
    assert text == "\n" + JoinLines(BodyLines(t));
    if Writable(t) then
      BodyLinesSplit(t);
      assert text[1..] == JoinLines(BodyLines(t));
      text
    else text
  }

  /** The text appended once the header and the first `k` posting lines are written. */
  function WrittenSoFar(t: Transaction, k: nat): string
    requires k <= |t.postings|
  {
    JoinLines(["", HeaderText(t)] + PostingLines(t.postings[..k]))
  }

  lemma WrittenStart(t: Transaction)
    ensures WrittenSoFar(t, 0) == "\n" + HeaderText(t) + "\n"
  {
    var h := HeaderText(t);
    assert ["", h] + PostingLines(t.postings[..0]) == ["", h];
    assert ["", h][1..] == [h];
    assert [h][1..] == [];
    assert JoinLines([h]) == h + "\n" + "";
    assert JoinLines(["", h]) == "" + "\n" + (h + "\n" + "");
  }

  lemma PostingLinesSnoc(ps: seq<Posting>, k: nat)
    requires k < |ps|
    ensures PostingLines(ps[..k + 1]) == PostingLines(ps[..k]) + [PostingText(ps[k])]
  {
    assert ps[..k + 1][..k] == ps[..k];
  }

  lemma WrittenStep(t: Transaction, k: nat)
    requires k < |t.postings|
    ensures WrittenSoFar(t, k + 1) == WrittenSoFar(t, k) + PostingText(t.postings[k]) + "\n"
  {
    var line := PostingText(t.postings[k]);
    var head, done := ["", HeaderText(t)], PostingLines(t.postings[..k]);
    PostingLinesSnoc(t.postings, k);
    AppendAssoc(head, done, [line]);
    JoinLinesSnoc(head + done, line);
  }

  lemma WrittenAll(t: Transaction)
    ensures WrittenSoFar(t, |t.postings|) == Serialize(t)
  {
    assert t.postings[..|t.postings|] == t.postings;
    assert ["", HeaderText(t)] == [""] + [HeaderText(t)];
    AppendAssoc([""], [HeaderText(t)], PostingLines(t.postings));
  }

  /** After the line break and the header line, the file holds what it held
      before and the text written so far. */
  lemma AppendedHeader(before: string, t: Transaction)
    ensures before + "\n" + (FormatDate(t.date) + " " + t.description) + "\n" == before + WrittenSoFar(t, 0)
  {
    WrittenStart(t);
    AppendAssoc(before + "\n", HeaderText(t), "\n");
    AppendAssoc(before, "\n", HeaderText(t) + "\n");
    AppendAssoc("\n", HeaderText(t), "\n");
  }

  /** Writing the `k`th posting line and a line break extends the text written so
      far by one posting. */
  lemma AppendedPosting(before: string, current: string, t: Transaction, k: nat)
    requires k < |t.postings| && current == before + WrittenSoFar(t, k)
    ensures current + PostingText(t.postings[k]) + "\n" == before + WrittenSoFar(t, k + 1)
  {
    WrittenStep(t, k);
    AppendAssoc4(before, WrittenSoFar(t, k), PostingText(t.postings[k]), "\n");
  }

  /** The appended text starts a fresh line before the header. */
  lemma SerializeStartsWithBreak(t: Transaction)
    ensures Serialize(t) == "\n" + JoinLines(BodyLines(t))
  {
    assert ([""] + BodyLines(t))[1..] == BodyLines(t);
  }

  /** A transaction the reader can take back: names of `[\w:]+` characters, a
      description with no line terminator that does not start with a space, and
      every amount present. */
  predicate Writable(t: Transaction) {
    && AmountsPresent(t)
    && NoLineTerminator(t.description)
    && (t.description == [] || t.description[0] != ' ')
    && forall k | 0 <= k < |t.postings| :: IsAccountName(t.postings[k].account.name)
  }

  lemma HeaderTextNoBreak(t: Transaction)
    requires NoLineTerminator(t.description)
    ensures NoLineBreak(HeaderText(t))
  {
    var d := FormatDate(t.date);
    var h := HeaderText(t);
    forall i | 0 <= i < |h|
      ensures !IsLineBreak(h[i])
    {
      if i < |d| {
        assert h[i] == d[i];
      } else if i > |d| {
        assert h[i] == t.description[i - |d| - 1];
      }
    }
  }

  lemma PostingTextNoBreak(p: Posting)
    requires IsAccountName(p.account.name)
    ensures NoLineBreak(PostingText(p))
  {
    AmountTextNoBreak(p.amount);
    IndentedLineNoBreak(p.account.name, AmountText(p.amount));
  }

  lemma AmountTextNoBreak(amount: Option<Cents>)
    ensures NoLineBreak(AmountText(amount))
  {
  }

  lemma IndentedLineNoBreak(name: string, f: string)
    requires IsAccountName(name) && NoLineBreak(f)
    ensures NoLineBreak("    " + name + "    $" + f)
  {
    var line := "    " + name + "    $" + f;
    forall i | 0 <= i < |line|
      ensures !IsLineBreak(line[i])
    {
      if 4 <= i < 4 + |name| {
        assert line[i] == name[i - 4];
      } else if i >= 9 + |name| {
        assert line[i] == f[i - 9 - |name|];
      }
    }
  }

  lemma PostingLinesNoBreak(ps: seq<Posting>)
    requires forall k | 0 <= k < |ps| :: IsAccountName(ps[k].account.name)
    ensures forall k | 0 <= k < |ps| :: NoLineBreak(PostingLines(ps)[k])
  {
    forall k | 0 <= k < |ps|
      ensures NoLineBreak(PostingLines(ps)[k])
    {
      PostingTextNoBreak(ps[k]);
    }
  }

  lemma ConsNoBreak(h: string, rest: seq<string>)
    requires NoLineBreak(h) && forall k | 0 <= k < |rest| :: NoLineBreak(rest[k])
    ensures forall k | 0 <= k < |[h] + rest| :: NoLineBreak(([h] + rest)[k])
  {
    forall k | 0 <= k < |[h] + rest|
      ensures NoLineBreak(([h] + rest)[k])
    {
      if k > 0 {
        assert ([h] + rest)[k] == rest[k - 1];
      }
    }
  }

  /** The lines of the appended text after its leading line break, split again
      as `readLine` splits them, are the header line and the posting lines. */
  lemma BodyLinesSplit(t: Transaction)
    requires Writable(t)
    ensures SplitLines(JoinLines(BodyLines(t))) == BodyLines(t)
  {
    HeaderTextNoBreak(t);
    PostingLinesNoBreak(t.postings);
    ConsNoBreak(HeaderText(t), PostingLines(t.postings));
    SplitJoinLines(BodyLines(t));
  }
}
