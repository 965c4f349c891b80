/** A text file as the lines a buffered reader hands out, and lines written back
    with a line feed after each. */
module Lines {
  import opened Text

  /** The index of the first line feed or carriage return, or the length. */
  function FirstBreak(s: string): (i: nat)
    ensures i <= |s| && NoLineBreak(s[..i]) && (i < |s| ==> IsLineBreak(s[i]))
  {
    if s == [] || IsLineBreak(s[0]) then 0
    else
      var i := 1 + FirstBreak(s[1..]);
      assert s[..i] == [s[0]] + s[1..][..i - 1];
      i
  }

  /** Where the next line starts after the break at `i`: a carriage return
      directly followed by a line feed is one break. */
  function NextLineStart(s: string, i: nat): (j: nat)
    requires i < |s|
    ensures i < j <= |s|
  {
    if s[i] == '\r' && i + 1 < |s| && s[i + 1] == '\n' then i + 2 else i + 1
  }

  /** The successive results of `readLine()` on `s` until it returns null: lines
      end at "\n", "\r" or "\r\n", and text after the last break is a line too. */
  function SplitLines(s: string): (lines: seq<string>)
    ensures forall k | 0 <= k < |lines| :: NoLineBreak(lines[k])
    ensures s != [] && NoLineBreak(s) ==> lines == [s]
    decreases |s|
  {
    if s == [] then []
    else
      var i := FirstBreak(s);
      if i == |s| then [s] else [s[..i]] + SplitLines(s[NextLineStart(s, i)..])
  }

  /** Each line followed by a line feed, as `write(line); newLine()` produces them. */
  function JoinLines(lines: seq<string>): (text: string)
    ensures text == [] <==> lines == []
    ensures text != [] ==> text[|text| - 1] == '\n'
  {
    if lines == [] then [] else lines[0] + "\n" + JoinLines(lines[1..])
  }

  lemma {:induction false} JoinLinesSnoc(lines: seq<string>, line: string)
    ensures JoinLines(lines + [line]) == JoinLines(lines) + line + "\n"
  {
    if lines == [] {
      assert lines + [line] == [line];
    } else {
      assert (lines + [line])[1..] == lines[1..] + [line];
      JoinLinesSnoc(lines[1..], line);
    }
  }

  lemma JoinLinesAppend(a: seq<string>, b: seq<string>)
    ensures JoinLines(a + b) == JoinLines(a) + JoinLines(b)
    decreases |a|
  {
    if a == [] {
      assert a + b == b;
    } else {
      assert (a + b)[1..] == a[1..] + b;
      JoinLinesAppend(a[1..], b);
    }
  }

  lemma FirstBreakAt(a: string, b: string)
    requires NoLineBreak(a) && |b| > 0 && IsLineBreak(b[0])
    ensures FirstBreak(a + b) == |a|
    decreases |a|
  {
    if a != [] {
      assert (a + b)[1..] == a[1..] + b;
      FirstBreakAt(a[1..], b);
    }
  }

  /** Reading back lines that contain no break gives the same lines. */
  lemma {:induction false} SplitJoinLines(lines: seq<string>)
    requires forall k | 0 <= k < |lines| :: NoLineBreak(lines[k])
    ensures SplitLines(JoinLines(lines)) == lines
  {
    if lines != [] {
      var s := JoinLines(lines);
      var rest := JoinLines(lines[1..]);
      assert s == lines[0] + ("\n" + rest);
      FirstBreakAt(lines[0], "\n" + rest);
      assert NextLineStart(s, |lines[0]|) == |lines[0]| + 1;
      assert s[..|lines[0]|] == lines[0];
      assert s[|lines[0]| + 1..] == rest;
      SplitJoinLines(lines[1..]);
    }
  }

  /** The blank line a leading "\n" leaves when appended to `a`: one when `a` is
      empty or ends with a line feed; none when the "\n" ends a last line or
      completes a "\r\n" break. */
  function BlankLineAfter(a: string): seq<string> {
    if a == [] || a[|a| - 1] == '\n' then [""] else []
  }

  lemma SplitLinesUnfold(s: string)
    requires s != [] && FirstBreak(s) < |s|
    ensures SplitLines(s) == [s[..FirstBreak(s)]] + SplitLines(s[NextLineStart(s, FirstBreak(s))..])
  {
  }

  /** `a` has no break: the "\n" ends its last line. */
  lemma SplitAfterUnbrokenLine(a: string, x: string)
    requires NoLineBreak(a)
    ensures SplitLines(a + "\n" + x) == SplitLines(a) + BlankLineAfter(a) + SplitLines(x)
  {
    UnbrokenFirstLine(a, x);
    if a != [] {
      SingleLine(a);
    }
  }

  /** Text without a break is one line, and ends with none. */
  lemma SingleLine(a: string)
    requires a != [] && NoLineBreak(a)
    ensures SplitLines(a) == [a] && BlankLineAfter(a) == []
  {
    assert !IsLineBreak(a[|a| - 1]);
  }

  lemma UnbrokenFirstLine(a: string, x: string)
    requires NoLineBreak(a)
    ensures SplitLines(a + "\n" + x) == [a] + SplitLines(x)
  {
    var s := a + "\n" + x;
    assert s == a + ("\n" + x);
    FirstBreakAt(a, "\n" + x);
    SplitLinesUnfold(s);
    assert s[..|a|] == a;
    assert NextLineStart(s, |a|) == |a| + 1;
    assert s[|a| + 1..] == x;
  }

  /** `a` ends with a lone carriage return: with the "\n" it makes one break. */
  lemma SplitAfterCarriageReturn(a: string, x: string)
    requires a != [] && FirstBreak(a) == |a| - 1 && a[|a| - 1] == '\r'
    ensures SplitLines(a + "\n" + x) == SplitLines(a) + BlankLineAfter(a) + SplitLines(x)
  {
    var i := |a| - 1;
    var s := a + "\n" + x;
    assert FirstBreak(s) == i by {
      assert s == a[..i] + ("\r\n" + x);
      FirstBreakAt(a[..i], "\r\n" + x);
    }
    assert SplitLines(s) == [a[..i]] + SplitLines(x) by {
      SplitLinesUnfold(s);
      assert s[..i] == a[..i];
      assert NextLineStart(s, i) == i + 2;
      assert s[i + 2..] == x;
    }
    assert SplitLines(a) == [a[..i]] by {
      SplitLinesUnfold(a);
      assert NextLineStart(a, i) == |a|;
      assert a[|a|..] == [];
    }
  }

  lemma FirstBreakOfAppend(a: string, x: string)
    requires FirstBreak(a) < |a|
    ensures FirstBreak(a + x) == FirstBreak(a)
  {
    var i := FirstBreak(a);
    assert a == a[..i] + a[i..];
    assert a + x == a[..i] + (a[i..] + x);
    FirstBreakAt(a[..i], a[i..] + x);
  }

  lemma AppendPrefix(a: string, x: string, i: nat)
    requires i < |a|
    ensures (a + x)[..i] == a[..i] && (a + x)[i] == a[i] && (i + 1 < |a| ==> (a + x)[i + 1] == a[i + 1])
  {
  }

  lemma AppendSuffix(a: string, x: string, j: nat)
    requires j <= |a|
    ensures (a + x)[j..] == a[j..] + x
  {
  }

  /** `a` has a first line ending before its end: both split it off alike. */
  lemma FirstLineOfAppend(a: string, x: string)
    requires a != [] && FirstBreak(a) < |a|
    requires !(a[FirstBreak(a)] == '\r' && FirstBreak(a) + 1 == |a|)
    ensures var s, i := a + x, FirstBreak(a);
            FirstBreak(s) == i && s[..i] == a[..i] && NextLineStart(s, i) == NextLineStart(a, i)
            && s[NextLineStart(a, i)..] == a[NextLineStart(a, i)..] + x
  {
    var i := FirstBreak(a);
    FirstBreakOfAppend(a, x);
    AppendPrefix(a, x, i);
    AppendSuffix(a, x, NextLineStart(a, i));
  }

  lemma SplitAppendFirstLine(a: string, x: string)
    requires a != [] && FirstBreak(a) < |a|
    requires !(a[FirstBreak(a)] == '\r' && FirstBreak(a) + 1 == |a|)
    ensures var i := FirstBreak(a);
            SplitLines(a + "\n" + x) == [a[..i]] + SplitLines(a[NextLineStart(a, i)..] + "\n" + x)
  {
    var i := FirstBreak(a);
    var j := NextLineStart(a, i);
    var s := a + ("\n" + x);
    assert s == a + "\n" + x;
    FirstLineOfAppend(a, "\n" + x);
    assert s[j..] == a[j..] + "\n" + x;
    SplitLinesUnfold(s);
  }

  lemma BlankLineAfterRest(a: string)
    requires a != [] && FirstBreak(a) < |a|
    requires !(a[FirstBreak(a)] == '\r' && FirstBreak(a) + 1 == |a|)
    ensures BlankLineAfter(a[NextLineStart(a, FirstBreak(a))..]) == BlankLineAfter(a)
  {
    var i := FirstBreak(a);
    var j := NextLineStart(a, i);
    var r := a[j..];
    if j < |a| {
      assert r != [] && r[|r| - 1] == a[|a| - 1];
    } else {
      assert r == [];
      BreakAtEnd(a, i, j);
    }
  }

  /** A first break that reaches the end of the text ends it with a line feed,
      unless it is a lone carriage return. */
  lemma BreakAtEnd(a: string, i: nat, j: nat)
    requires i < |a| && IsLineBreak(a[i]) && !(a[i] == '\r' && i + 1 == |a|)
    requires j == NextLineStart(a, i) == |a|
    ensures a[|a| - 1] == '\n'
  {
  }

  lemma ConsAssoc(whole: seq<string>, part: seq<string>, first: string, rest: seq<string>,
                  extended: seq<string>, blank: seq<string>, tail: seq<string>)
    requires part == [first] + rest
    requires whole == [first] + extended
    requires extended == rest + blank + tail
    ensures whole == part + blank + tail
  {
  }

  /** The inductive step: `a` and `a + "\n" + x` share their first line. */
  lemma SplitAfterFirstLine(a: string, x: string)
    requires a != [] && FirstBreak(a) < |a|
    requires !(a[FirstBreak(a)] == '\r' && FirstBreak(a) + 1 == |a|)
    requires var r := a[NextLineStart(a, FirstBreak(a))..];
             SplitLines(r + "\n" + x) == SplitLines(r) + BlankLineAfter(r) + SplitLines(x)
    ensures SplitLines(a + "\n" + x) == SplitLines(a) + BlankLineAfter(a) + SplitLines(x)
  {
    var i := FirstBreak(a);
    var r := a[NextLineStart(a, i)..];
    SplitAppendFirstLine(a, x);
    SplitLinesUnfold(a);
    BlankLineAfterRest(a);
    ConsAssoc(SplitLines(a + "\n" + x), SplitLines(a), a[..i], SplitLines(r),
              SplitLines(r + "\n" + x), BlankLineAfter(a), SplitLines(x));
  }

  /** Appending text that starts with a line feed adds the lines of the rest after
      those already there, with at most one blank line between. */
  lemma {:induction false} SplitLinesAfterNewline(a: string, x: string)
    ensures SplitLines(a + "\n" + x) == SplitLines(a) + BlankLineAfter(a) + SplitLines(x)
    decreases |a|
  {
    if FirstBreak(a) == |a| {
      SplitAfterUnbrokenLine(a, x);
    } else if a[FirstBreak(a)] == '\r' && FirstBreak(a) + 1 == |a| {
      SplitAfterCarriageReturn(a, x);
    } else {
      SplitLinesAfterNewline(a[NextLineStart(a, FirstBreak(a))..], x);
      SplitAfterFirstLine(a, x);
    }
  }
}
