/** Character classes of the ledger's line patterns and decimal digit strings. */
module Text {

  // ----- character classes -----

  /** `\d`: an ASCII digit. */
  predicate IsDigit(c: char) { '0' <= c <= '9' }

  /** `\w`: an ASCII letter, an ASCII digit or an underscore. */
  predicate IsWordChar(c: char) {
    'a' <= c <= 'z' || 'A' <= c <= 'Z' || IsDigit(c) || c == '_'
  }

  /** `[\w:]`: a character of an account name. */
  predicate IsAccountChar(c: char) { IsWordChar(c) || c == ':' }

  /** `\s`: space, tab, line feed, vertical tab, form feed, carriage return. */
  predicate IsWhitespace(c: char) {
    c == ' ' || c == '\t' || c == '\n' || c == '\U{B}' || c == '\U{C}' || c == '\r'
  }

  /** The characters that the pattern `.` refuses to match. */
  predicate IsLineTerminator(c: char) {
    c == '\n' || c == '\r' || c == '\U{85}' || c == '\U{2028}' || c == '\U{2029}'
  }

  /** The characters that end a line when a file is read line by line. */
  predicate IsLineBreak(c: char) { c == '\n' || c == '\r' }

  predicate AllDigits(s: string) { forall i | 0 <= i < |s| :: IsDigit(s[i]) }

  predicate AllDigitsOrCommas(s: string) { forall i | 0 <= i < |s| :: IsDigit(s[i]) || s[i] == ',' }

  predicate AllSpaces(s: string) { forall i | 0 <= i < |s| :: s[i] == ' ' }

  predicate AllWhitespace(s: string) { forall i | 0 <= i < |s| :: IsWhitespace(s[i]) }

  predicate AllAccountChars(s: string) { forall i | 0 <= i < |s| :: IsAccountChar(s[i]) }

  predicate NoLineTerminator(s: string) { forall i | 0 <= i < |s| :: !IsLineTerminator(s[i]) }

  predicate NoLineBreak(s: string) { forall i | 0 <= i < |s| :: !IsLineBreak(s[i]) }

  /** An account name as the posting pattern captures it: `[\w:]+`. */
  predicate IsAccountName(s: string) { |s| >= 1 && AllAccountChars(s) }

  lemma AppendAssoc<T>(a: seq<T>, b: seq<T>, c: seq<T>)
    ensures a + b + c == a + (b + c)
  {
  }

  lemma AppendAssoc4<T>(a: seq<T>, b: seq<T>, c: seq<T>, d: seq<T>)
    ensures a + b + c + d == a + (b + c + d)
  {
  }

  // ----- decimal digit strings -----

  function DigitValue(c: char): (n: nat)
    requires IsDigit(c)
    ensures n < 10
  {
    c as int - '0' as int
  }

  function DigitChar(n: nat): (c: char)
    requires n < 10
    ensures IsDigit(c) && DigitValue(c) == n
  {
    ('0' as int + n) as char
  }

  /** The value of a string of decimal digits, most significant first. */
  function DigitsValue(s: string): nat
    requires AllDigits(s)
    decreases |s|
  {
    if s == [] then 0 else 10 * DigitsValue(s[..|s| - 1]) + DigitValue(s[|s| - 1])
  }

  function Pow10(n: nat): (p: nat)
    ensures p >= 1
  {
    if n == 0 then 1 else 10 * Pow10(n - 1)
  }

  lemma DigitsValueSnoc(s: string, c: char)
    requires AllDigits(s) && IsDigit(c)
    ensures AllDigits(s + [c]) && DigitsValue(s + [c]) == 10 * DigitsValue(s) + DigitValue(c)
  {
    assert (s + [c])[..|s|] == s;
  }

  lemma DigitsValue2(s: string)
    requires |s| == 2 && AllDigits(s)
    ensures DigitsValue(s) == 10 * DigitValue(s[0]) + DigitValue(s[1])
  {
    var u := s[..1];
    assert u[..0] == [] && u[0] == s[0];
    assert DigitsValue(u) == DigitValue(s[0]);
    assert DigitsValue(s) == 10 * DigitsValue(u) + DigitValue(s[1]);
  }

  lemma DigitsValue4(s: string)
    requires |s| == 4 && AllDigits(s)
    ensures DigitsValue(s) == 1000 * DigitValue(s[0]) + 100 * DigitValue(s[1])
                              + 10 * DigitValue(s[2]) + DigitValue(s[3])
  {
    var t := s[..3];
    var u := t[..2];
    DigitsValue2(u);
    assert u[0] == s[0] && u[1] == s[1] && t[2] == s[2];
    assert DigitsValue(t) == 10 * DigitsValue(u) + DigitValue(s[2]);
    assert DigitsValue(s) == 10 * DigitsValue(t) + DigitValue(s[3]);
  }

  /** A string of `n` digits denotes a number below 10^n. */
  lemma {:induction false} DigitsValueBound(s: string)
    requires AllDigits(s)
    ensures DigitsValue(s) < Pow10(|s|)
  {
    if s != [] {
      DigitsValueBound(s[..|s| - 1]);
    }
  }

  /** `n` written in exactly `width` digits, padded with leading zeros. */
  function ZeroPad(n: nat, width: nat): (s: string)
    ensures |s| == width && AllDigits(s)
  {
    if width == 0 then [] else ZeroPad(n / 10, width - 1) + [DigitChar(n % 10)]
  }

  /** Padding to a width that holds the number loses nothing. */
  lemma {:induction false} ZeroPadValue(n: nat, width: nat)
    requires n < Pow10(width)
    ensures DigitsValue(ZeroPad(n, width)) == n
  {
    if width > 0 {
      ZeroPadValue(n / 10, width - 1);
      DigitsValueSnoc(ZeroPad(n / 10, width - 1), DigitChar(n % 10));
    }
  }

  /** `n` in decimal, without leading zeros ("0" for zero). */
  function NatToDecimal(n: nat): (s: string)
    ensures 1 <= |s| && AllDigits(s)
    ensures s[0] == '0' <==> n == 0
    ensures n == 0 ==> s == "0"
    decreases n
  {
    if n < 10 then [DigitChar(n)]
    else
      var s := NatToDecimal(n / 10) + [DigitChar(n % 10)];
      assert s[0] == NatToDecimal(n / 10)[0];
      s
  }

  lemma {:induction false} NatToDecimalValue(n: nat)
    ensures DigitsValue(NatToDecimal(n)) == n
    decreases n
  {
    if n < 10 {
      assert NatToDecimal(n) == [] + [DigitChar(n)];
      DigitsValueSnoc([], DigitChar(n));
    } else {
      NatToDecimalValue(n / 10);
      DigitsValueSnoc(NatToDecimal(n / 10), DigitChar(n % 10));
    }
  }
}
