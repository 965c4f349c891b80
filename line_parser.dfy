/** The two line patterns of the ledger reader, written as recognisers.
    Header:  `^(\d{4}-\d{2}-\d{2}) +(.*)`  (the separator is a run of spaces).
    Posting: `^\s+([\w:]+)\s*(\$?(-?[\d,]+\.\d{2}))?`.
    Both must match the whole line. */
module LineParser {
  import opened Wrappers
  import opened Text
  import opened Amounts
  import opened Dates

  /** The groups of the header pattern: the date text and the description. */
  datatype HeaderFields = HeaderFields(dateText: string, description: string)

  /** The groups of the posting pattern: the account name and the amount token, if any. */
  datatype PostingFields = PostingFields(accountName: string, amountText: Option<string>)

  // ----- runs of one kind of character -----

  function SpaceRun(s: string): (n: nat)
    ensures n <= |s| && AllSpaces(s[..n]) && (n < |s| ==> s[n] != ' ')
  {
    if s == [] || s[0] != ' ' then 0
    else
      var n := 1 + SpaceRun(s[1..]);
      assert s[..n] == [s[0]] + s[1..][..n - 1];
      n
  }

  function WhitespaceRun(s: string): (n: nat)
    ensures n <= |s| && AllWhitespace(s[..n]) && (n < |s| ==> !IsWhitespace(s[n]))
  {
    if s == [] || !IsWhitespace(s[0]) then 0
    else
      var n := 1 + WhitespaceRun(s[1..]);
      assert s[..n] == [s[0]] + s[1..][..n - 1];
      n
  }

  function AccountRun(s: string): (n: nat)
    ensures n <= |s| && AllAccountChars(s[..n]) && (n < |s| ==> !IsAccountChar(s[n]))
  {
    if s == [] || !IsAccountChar(s[0]) then 0
    else
      var n := 1 + AccountRun(s[1..]);
      assert s[..n] == [s[0]] + s[1..][..n - 1];
      n
  }

  // ----- the header pattern -----

  /** The header pattern matches the whole line with its second group starting at `j`. */
  ghost predicate HeaderSplit(line: string, j: int) {
    11 <= j <= |line| && IsDateText(line[..10]) && AllSpaces(line[10..j]) && NoLineTerminator(line[j..])
  }

  /** Matches a transaction header; the description is what follows the longest
      run of spaces after the date. */
  function MatchHeader(line: string): (r: Option<HeaderFields>)
    ensures r.Some? ==> IsDateText(r.value.dateText)
    ensures r.Some? ==> NoLineTerminator(r.value.description)
  {
    if 11 <= |line| && IsDateText(line[..10]) && line[10] == ' ' && NoLineTerminator(line[11..]) then
      var j := 10 + SpaceRun(line[10..]);
      assert line[j..] == line[11..][j - 11..];
      Some(HeaderFields(line[..10], line[j..]))
    else None
  }

  /** `MatchHeader` succeeds exactly when the header pattern matches the whole
      line, and then returns the groups of the greedy match. */
  lemma HeaderPatternSemantics(line: string)
    ensures MatchHeader(line).None? ==> forall j :: !HeaderSplit(line, j)
    ensures MatchHeader(line).Some? ==>
              var h := MatchHeader(line).value;
              var j := |line| - |h.description|;
              && HeaderSplit(line, j)
              && h.dateText == line[..10]
              && h.description == line[j..]
              && (h.description == [] || h.description[0] != ' ')
  {
    if MatchHeader(line).None? {
      forall j | HeaderSplit(line, j)
        ensures false
      {
        assert line[10] == line[10..j][0];
        forall k | 11 <= k < |line|
          ensures !IsLineTerminator(line[k])
        {
          if k < j {
            assert line[k] == line[10..j][k - 10];
          } else {
            assert line[k] == line[j..][k - j];
          }
        }
        assert NoLineTerminator(line[11..]);
      }
    } else {
      var n := SpaceRun(line[10..]);
      var j := 10 + n;
      assert line[10..j] == line[10..][..n];
      assert NoLineTerminator(line[j..]) by {
        assert line[j..] == line[11..][j - 11..];
      }
    }
  }

  // ----- the posting pattern -----

  /** What may follow the account name: `\s*`, then optionally an amount token,
      then the end of the line. */
  ghost predicate RestMatches(s: string) {
    exists m | 0 <= m <= |s| :: AllWhitespace(s[..m]) && (m == |s| || IsAmountToken(s[m..]))
  }

  /** The same test, made by skipping all leading whitespace. */
  predicate RestAccepted(s: string) {
    var t := s[WhitespaceRun(s)..];
    t == [] || IsAmountToken(t)
  }

  lemma AmountTokenStart(t: string)
    requires IsAmountToken(t)
    ensures !IsWhitespace(t[0])
  {
    var b := SignEnd(t);
    if b == 0 {
      assert t[0] == t[b..|t| - 3][0];
    }
  }

  lemma RestAcceptedMatches(s: string)
    ensures RestAccepted(s) <==> RestMatches(s)
  {
    var n := WhitespaceRun(s);
    if RestMatches(s) {
      var m :| 0 <= m <= |s| && AllWhitespace(s[..m]) && (m == |s| || IsAmountToken(s[m..]));
      if m < |s| {
        AmountTokenStart(s[m..]);
        assert s[m] == s[m..][0];
      }
      WhitespaceRunAt(s, m);
    }
    if RestAccepted(s) {
      assert AllWhitespace(s[..n]) && (n == |s| || IsAmountToken(s[n..]));
    }
  }

  /** The rest of `line` from index `i` on is accepted. */
  predicate AcceptedFrom(line: string, i: nat)
    requires i <= |line|
  {
    RestAccepted(line[i..])
  }

  /** The posting pattern matches the whole line with `w` characters of indent and
      the account name ending at index `e`. */
  ghost predicate PostingSplit(line: string, w: int, e: int) {
    && 1 <= w < e <= |line|
    && AllWhitespace(line[..w])
    && AllAccountChars(line[w..e])
    && RestMatches(line[e..])
  }

  /** Where the account name ends when the pattern engine has settled: it tries
      the longest run of name characters first (ending at `e`) and gives
      characters back one at a time until the rest of the line is accepted;
      `w` itself when no length works. */
  function AccountEnd(line: string, w: nat, e: nat): (n: nat)
    requires w <= e <= |line|
    ensures w <= n <= e
    ensures w < n ==> AcceptedFrom(line, n)
    ensures forall i | n < i <= e :: !AcceptedFrom(line, i)
    decreases e
  {
    if e == w then w
    else if AcceptedFrom(line, e) then e
    else AccountEnd(line, w, e - 1)
  }

  /** Every piece of the run of name characters is made of name characters. */
  lemma AccountSlice(line: string, w: nat, e: nat)
    requires w <= |line| && w <= e <= w + AccountRun(line[w..])
    ensures AllAccountChars(line[w..e])
  {
    var a := AccountRun(line[w..]);
    forall i | 0 <= i < e - w
      ensures IsAccountChar(line[w..e][i])
    {
      assert line[w..e][i] == line[w..][..a][i];
    }
  }

  /** Group 2 (with its `$`): the text after the whitespace that follows the account
      name, absent when that text is empty. */
  function AmountGroup(rest: string): (g: Option<string>)
    ensures g.None? ==> AllWhitespace(rest)
    ensures g.Some? ==> AmountAtEnd(rest, g.value)
    ensures g.Some? && RestAccepted(rest) ==> IsAmountToken(g.value)
  {
    var m := WhitespaceRun(rest);
    assert rest == rest[..m] + rest[m..];
    if m == |rest| then None else Some(rest[m..])
  }

  /** The groups of the match whose indent is `w` characters and whose account
      name ends at `e`; none when the name would be empty. */
  function PostingAt(line: string, w: nat, e: nat): Option<PostingFields>
    requires w <= e <= |line|
  {
    if e == w then None else Some(PostingFields(line[w..e], AmountGroup(line[e..])))
  }

  /** Matches a posting line, giving the account name and the amount token. */
  function MatchPosting(line: string): (r: Option<PostingFields>)
    ensures r.Some? ==> IsAccountName(r.value.accountName)
    ensures r.Some? && r.value.amountText.Some? ==> IsAmountToken(r.value.amountText.value)
  {
    var w := WhitespaceRun(line);
    if w == 0 then None
    else
      var e := NameEnd(line, w);
      assert w < e ==> RestAccepted(line[e..]);
      PostingAt(line, w, e)
  }

  /** Where the account name after an indent of `w` ends once the engine has
      settled, within the run of name characters that follows the indent. */
  function NameEnd(line: string, w: nat): (e: nat)
    requires w <= |line|
    ensures w <= e <= w + AccountRun(line[w..]) && e <= |line|
    ensures AllAccountChars(line[w..e]) && (w < e ==> AcceptedFrom(line, e))
  {
    var e := AccountEnd(line, w, w + AccountRun(line[w..]));
    AccountSlice(line, w, e);
    e
  }

  /** The whitespace run ends at the first character that is not whitespace. */
  lemma {:induction false} WhitespaceRunAt(s: string, w: nat)
    requires w <= |s| && AllWhitespace(s[..w]) && (w < |s| ==> !IsWhitespace(s[w]))
    ensures WhitespaceRun(s) == w
  {
    if w > 0 {
      assert IsWhitespace(s[0]) by { assert s[0] == s[..w][0]; }
      var t := s[1..][..w - 1];
      assert AllWhitespace(t) by {
        forall i | 0 <= i < |t| ensures IsWhitespace(t[i]) {
          assert t[i] == s[..w][i + 1];
        }
      }
      assert w - 1 < |s| - 1 ==> s[1..][w - 1] == s[w];
      WhitespaceRunAt(s[1..], w - 1);
    }
  }

  /** The run of name characters reaches at least as far as any prefix made of
      name characters. */
  lemma {:induction false} AccountRunCovers(s: string, e: nat)
    requires e <= |s| && AllAccountChars(s[..e])
    ensures e <= AccountRun(s)
  {
    if e > 0 {
      assert IsAccountChar(s[0]) by { assert s[0] == s[..e][0]; }
      var t := s[1..][..e - 1];
      assert AllAccountChars(t) by {
        forall i | 0 <= i < |t| ensures IsAccountChar(t[i]) {
          assert t[i] == s[..e][i + 1];
        }
      }
      AccountRunCovers(s[1..], e - 1);
    }
  }

  /** Any match of the posting pattern has the whole leading whitespace as indent,
      an account name within the run of name characters, and an accepted rest. */
  lemma PostingSplitShape(line: string, w: int, e: int)
    requires PostingSplit(line, w, e)
    ensures w == WhitespaceRun(line)
    ensures e <= w + AccountRun(line[w..])
    ensures AcceptedFrom(line, e)
  {
    assert IsAccountChar(line[w]) by { assert line[w] == line[w..e][0]; }
    WhitespaceRunAt(line, w);
    assert line[w..][..e - w] == line[w..e];
    AccountRunCovers(line[w..], e - w);
    RestAcceptedMatches(line[e..]);
  }

  /** When `MatchPosting` fails, the posting pattern does not match the line. */
  lemma PostingNoMatch(line: string, w: int, e: int)
    requires MatchPosting(line).None?
    ensures !PostingSplit(line, w, e)
  {
    if PostingSplit(line, w, e) {
      PostingSplitShape(line, w, e);
    }
  }

  /** No match of the posting pattern has a longer account name than the one
      `MatchPosting` returns. */
  lemma PostingMatchLongest(line: string, w: int, e: int)
    requires MatchPosting(line).Some?
    requires PostingSplit(line, w, e)
    ensures w == WhitespaceRun(line)
    ensures e <= w + |MatchPosting(line).value.accountName|
  {
    PostingSplitShape(line, w, e);
  }

  /** The indent and name end `MatchPosting` settles on, when it succeeds. */
  lemma MatchPostingSplit(line: string) returns (w: nat, e: nat)
    requires MatchPosting(line).Some?
    ensures w == WhitespaceRun(line) && 1 <= w < e <= |line|
    ensures AllWhitespace(line[..w]) && AllAccountChars(line[w..e]) && AcceptedFrom(line, e)
    ensures MatchPosting(line) == PostingAt(line, w, e)
    ensures |MatchPosting(line).value.accountName| == e - w
  {
    w := WhitespaceRun(line);
    e := NameEnd(line, w);
  }

  /** The groups at an accepted split are the groups of a match there. */
  lemma GroupsAt(line: string, w: nat, e: nat)
    requires 1 <= w < e <= |line|
    requires AllWhitespace(line[..w]) && AllAccountChars(line[w..e]) && AcceptedFrom(line, e)
    ensures MatchedGroups(line, w, e, PostingAt(line, w, e).value)
  {
    RestAcceptedMatches(line[e..]);
  }

  /** What `MatchPosting` returns are the groups of a match of the posting pattern. */
  lemma PostingMatchGroups(line: string)
    requires MatchPosting(line).Some?
    ensures var p := MatchPosting(line).value;
            var w := WhitespaceRun(line);
            MatchedGroups(line, w, w + |p.accountName|, p)
  {
    var w, e := MatchPostingSplit(line);
    GroupsAt(line, w, e);
  }

  /** `p` holds the groups of the match with indent `w` and name ending at `e`. */
  ghost predicate MatchedGroups(line: string, w: int, e: int, p: PostingFields) {
    && PostingSplit(line, w, e)
    && p.accountName == line[w..e]
    && (p.amountText.None? ==> AllWhitespace(line[e..]))
    && (p.amountText.Some? ==> AmountAtEnd(line[e..], p.amountText.value))
  }

  /** `MatchPosting` succeeds exactly when the posting pattern matches the whole
      line; it returns the groups of the match the backtracking engine finds first:
      the whole indent, the longest account name that lets the rest match, and
      the text after the following whitespace as the amount, absent if empty. */
  lemma PostingPatternSemantics(line: string)
    ensures MatchPosting(line).None? ==> forall w, e :: !PostingSplit(line, w, e)
    ensures MatchPosting(line).Some? ==>
              var p := MatchPosting(line).value;
              var w := WhitespaceRun(line);
              var e := w + |p.accountName|;
              && MatchedGroups(line, w, e, p)
              && (forall w', e' :: PostingSplit(line, w', e') ==> w' == w && e' <= e)
  {
    if MatchPosting(line).None? {
      forall w, e ensures !PostingSplit(line, w, e) {
        PostingNoMatch(line, w, e);
      }
    } else {
      PostingMatchGroups(line);
      forall w', e' | PostingSplit(line, w', e')
        ensures w' == WhitespaceRun(line) && e' <= WhitespaceRun(line) + |MatchPosting(line).value.accountName|
      {
        PostingMatchLongest(line, w', e');
      }
    }
  }

  /** `rest` is whitespace followed by the token `t`. */
  predicate AmountAtEnd(rest: string, t: string) {
    |t| <= |rest| && rest == rest[..|rest| - |t|] + t && AllWhitespace(rest[..|rest| - |t|])
  }

  lemma {:induction false} SpaceRunAppend(a: string, b: string)
    requires AllSpaces(a) && (b == [] || b[0] != ' ')
    ensures SpaceRun(a + b) == |a|
  {
    if a == [] {
      assert a + b == b;
    } else {
      assert (a + b)[0] == a[0] && (a + b)[1..] == a[1..] + b;
      assert AllSpaces(a[1..]) by {
        forall i | 0 <= i < |a[1..]| ensures a[1..][i] == ' ' { assert a[1..][i] == a[i + 1]; }
      }
      SpaceRunAppend(a[1..], b);
    }
  }

  lemma {:induction false} WhitespaceRunAppend(a: string, b: string)
    requires AllWhitespace(a) && (b == [] || !IsWhitespace(b[0]))
    ensures WhitespaceRun(a + b) == |a|
  {
    if a == [] {
      assert a + b == b;
    } else {
      assert (a + b)[0] == a[0] && (a + b)[1..] == a[1..] + b;
      assert AllWhitespace(a[1..]) by {
        forall i | 0 <= i < |a[1..]| ensures IsWhitespace(a[1..][i]) { assert a[1..][i] == a[i + 1]; }
      }
      WhitespaceRunAppend(a[1..], b);
    }
  }

  lemma {:induction false} AccountRunAppend(a: string, b: string)
    requires AllAccountChars(a) && (b == [] || !IsAccountChar(b[0]))
    ensures AccountRun(a + b) == |a|
  {
    if a == [] {
      assert a + b == b;
    } else {
      assert (a + b)[0] == a[0] && (a + b)[1..] == a[1..] + b;
      assert AllAccountChars(a[1..]) by {
        forall i | 0 <= i < |a[1..]| ensures IsAccountChar(a[1..][i]) { assert a[1..][i] == a[i + 1]; }
      }
      AccountRunAppend(a[1..], b);
    }
  }

  /** A header line as the writer produces it, a date, one space and a description
      that neither starts with a space nor holds a line terminator, reads back
      its date and its description. */
  lemma WrittenHeaderMatches(date: string, description: string)
    requires IsDateText(date)
    requires NoLineTerminator(description) && (description == [] || description[0] != ' ')
    ensures MatchHeader(date + " " + description) == Some(HeaderFields(date, description))
  {
    var line := date + " " + description;
    assert line[..10] == date;
    assert line[10] == ' ';
    assert line[11..] == description;
    assert line[10..] == " " + description;
    SpaceRunAppend(" ", description);
  }

  /** The runs of a written posting line: four spaces, then exactly the name. */
  lemma WrittenPostingRuns(line: string, name: string, rest: string)
    requires IsAccountName(name) && |rest| > 0 && !IsAccountChar(rest[0])
    requires line == "    " + name + rest
    ensures WhitespaceRun(line) == 4 && AccountRun(line[4..]) == |name|
    ensures line[4..4 + |name|] == name && line[4 + |name|..] == rest
  {
    assert line == "    " + (name + rest);
    WhitespaceRunAppend("    ", name + rest);
    assert line[4..] == name + rest;
    AccountRunAppend(name, rest);
  }

  /** After a written name: four spaces and the token, which is group 2 (with its `$`). */
  lemma WrittenAmountGroup(token: string)
    requires IsAmountToken(token) && token[0] == '$'
    ensures RestAccepted("    " + token) && AmountGroup("    " + token) == Some(token)
  {
    WhitespaceRunAppend("    ", token);
    assert ("    " + token)[4..] == token;
  }

  /** A posting line as the writer produces it, four spaces, the name, four
      spaces and the amount token, reads back the name and the token. */
  lemma WrittenPostingMatches(name: string, token: string)
    requires IsAccountName(name) && IsAmountToken(token) && token[0] == '$'
    ensures MatchPosting("    " + name + "    " + token) == Some(PostingFields(name, Some(token)))
  {
    var rest := "    " + token;
    var line := "    " + name + rest;
    assert line == "    " + name + "    " + token;
    var e := 4 + |name|;
    WrittenPostingRuns(line, name, rest);
    WrittenAmountGroup(token);
    assert AcceptedFrom(line, e);
    assert NameEnd(line, 4) == e by { assert AccountEnd(line, 4, e) == e; }
  }

  /** The engine gives back name characters to let an amount match: a posting
      line without a space before its amount loses the amount's leading digit
      to the account name. */
  lemma BacktrackingExample(line: string)
    requires line == "  Cash100.00"
    ensures MatchPosting(line) == Some(PostingFields("Cash10", Some("0.00")))
  {
    BacktrackingEnd(line);
    BacktrackingRests(line);
    SettledMatch(line, 2, 8);
    assert line[2..8] == "Cash10" by { BacktrackingName(line); }
  }

  lemma BacktrackingName(line: string)
    requires line == "  Cash100.00"
    ensures line[2..8] == "Cash10"
  {
  }

  /** `MatchPosting` returns the groups at the whole indent and the settled name end. */
  lemma SettledMatch(line: string, w: nat, e: nat)
    requires 0 < w == WhitespaceRun(line) && NameEnd(line, w) == e
    ensures MatchPosting(line) == PostingAt(line, w, e)
  {
  }

  lemma BacktrackingEnd(line: string)
    requires line == "  Cash100.00"
    ensures WhitespaceRun(line) == 2 && NameEnd(line, 2) == 8
  {
    BacktrackingRuns(line);
    BacktrackingRests(line);
    assert AccountEnd(line, 2, 9) == 8 by { assert AccountEnd(line, 2, 8) == 8; }
  }

  lemma BacktrackingRuns(line: string)
    requires line == "  Cash100.00"
    ensures WhitespaceRun(line) == 2 && AccountRun(line[2..]) == 7
  {
    assert WhitespaceRun(line) == 2 by {
      assert line == "  " + "Cash100.00";
      WhitespaceRunAppend("  ", "Cash100.00");
    }
    assert AccountRun(line[2..]) == 7 by {
      assert line[2..] == "Cash100" + ".00";
      assert AllAccountChars("Cash100");
      AccountRunAppend("Cash100", ".00");
    }
  }

  lemma BacktrackingRests(line: string)
    requires line == "  Cash100.00"
    ensures !AcceptedFrom(line, 9) && AcceptedFrom(line, 8)
    ensures AmountGroup(line[8..]) == Some("0.00")
  {
    assert line[9..] == ".00";
    WhitespaceRunAppend("", ".00");
    assert line[8..] == "0.00";
    WhitespaceRunAppend("", "0.00");
    assert IsAmountToken("0.00") by {
      assert "0.00"[0..1] == "0";
      assert "0.00"[2..] == "00";
    }
  }
}
