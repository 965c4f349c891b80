/** Money amounts: the amount token of a posting line, its decoding, and the
    two-decimal rendering the writer uses. An amount is an exact count of cents. */
module Amounts {
  import opened Text

  /** The index just after an optional leading `$` and an optional `-`. */
  function SignEnd(t: string): (b: nat)
    ensures b <= |t| && b <= 2
  {
    var a := if 0 < |t| && t[0] == '$' then 1 else 0;
    if a < |t| && t[a] == '-' then a + 1 else a
  }

  /** `\$?-?[\d,]+\.\d{2}`: the whole of `t` is an amount token. */
  predicate IsAmountToken(t: string) {
    var b := SignEnd(t);
    b + 4 <= |t| && AllDigitsOrCommas(t[b..|t| - 3]) && t[|t| - 3] == '.' && AllDigits(t[|t| - 2..])
  }

  /** `s.replaceAll("[$,]", "")`: no `$` or `,` is left, and every other
      character is kept (as often as it occurs: `StripCurrencyCounts`; in order:
      `StripCurrencyAppend`). */
  function StripCurrency(s: string): (r: string)
    ensures |r| <= |s|
    ensures forall i | 0 <= i < |r| :: r[i] != '$' && r[i] != ','
  {
    if s == [] then []
    else (if s[0] == '$' || s[0] == ',' then [] else [s[0]]) + StripCurrency(s[1..])
  }

  /** Every character other than `$` and `,` is kept as often as it occurs. */
  lemma {:induction false} StripCurrencyCounts(s: string)
    ensures forall c | c != '$' && c != ',' :: multiset(StripCurrency(s))[c] == multiset(s)[c]
  {
    if s != [] {
      var h := if s[0] == '$' || s[0] == ',' then [] else [s[0]];
      StripCurrencyCounts(s[1..]);
      assert multiset(s) == multiset{s[0]} + multiset(s[1..]) by {
        assert s == [s[0]] + s[1..];
      }
      assert multiset(StripCurrency(s)) == multiset(h) + multiset(StripCurrency(s[1..]));
    }
  }

  lemma {:induction false} StripCurrencyAppend(a: string, b: string)
    ensures StripCurrency(a + b) == StripCurrency(a) + StripCurrency(b)
  {
    if a == [] {
      assert a + b == b;
    } else {
      var h := if a[0] == '$' || a[0] == ',' then [] else [a[0]];
      assert (a + b)[0] == a[0];
      assert (a + b)[1..] == a[1..] + b;
      StripCurrencyAppend(a[1..], b);
      assert StripCurrency(a + b) == h + StripCurrency(a[1..] + b);
      assert StripCurrency(a) == h + StripCurrency(a[1..]);
      AppendAssoc(h, StripCurrency(a[1..]), StripCurrency(b));
    }
  }

  lemma StripCurrencyChar(c: char)
    ensures StripCurrency([c]) == if c == '$' || c == ',' then [] else [c]
  {
    assert [c][1..] == [];
  }

  /** Stripping keeps exactly the digits of a run of digits and commas. */
  lemma {:induction false} StripDigitsOrCommas(s: string)
    requires AllDigitsOrCommas(s)
    ensures AllDigits(StripCurrency(s))
  {
    if s != [] {
      StripDigitsOrCommas(s[1..]);
    }
  }

  /** A string without `$` and `,` is left as it is. */
  lemma {:induction false} StripUnchanged(s: string)
    requires forall i | 0 <= i < |s| :: s[i] != '$' && s[i] != ','
    ensures StripCurrency(s) == s
  {
    if s != [] {
      StripUnchanged(s[1..]);
      assert [s[0]] + s[1..] == s;
    }
  }

  /** The text `new BigDecimal(..)` receives: `-?\d*\.\d{2}`. */
  predicate IsScaledDecimal(s: string) {
    var b := if 0 < |s| && s[0] == '-' then 1 else 0;
    b + 3 <= |s| && AllDigits(s[b..|s| - 3]) && s[|s| - 3] == '.' && AllDigits(s[|s| - 2..])
  }

  /** The value, in cents, of a decimal with exactly two fractional digits. */
  function ScaledDecimalValue(s: string): int
    requires IsScaledDecimal(s)
  {
    var b := if 0 < |s| && s[0] == '-' then 1 else 0;
    var magnitude := 100 * DigitsValue(s[b..|s| - 3]) + DigitsValue(s[|s| - 2..]);
    if b == 1 then -magnitude else magnitude
  }

  /** The value is negative only with a leading minus; its whole units are the
      digits before the point and its cents the two digits after it. */
  lemma ScaledDecimalParts(s: string)
    requires IsScaledDecimal(s)
    ensures var v := ScaledDecimalValue(s);
            && ((0 < |s| && s[0] == '-') || v >= 0)
            && (!(0 < |s| && s[0] == '-') || v <= 0)
            && var b := if 0 < |s| && s[0] == '-' then 1 else 0;
               var m := if v < 0 then -v else v;
               m / 100 == DigitsValue(s[b..|s| - 3]) && m % 100 == DigitsValue(s[|s| - 2..])
  {
    DigitsValueBound(s[|s| - 2..]);
  }

  /** The sign part of a token, `$?-?`, strips to its minus sign if it has one. */
  lemma StripSignPart(t: string)
    ensures var b := SignEnd(t);
            StripCurrency(t[..b]) == if b > 0 && t[b - 1] == '-' then "-" else ""
  {
    var b := SignEnd(t);
    if b == 1 {
      assert t[..b] == [t[0]];
      StripCurrencyChar(t[0]);
    } else if b == 2 {
      assert t[..b] == [t[0]] + [t[1]];
      StripCurrencyAppend([t[0]], [t[1]]);
      StripCurrencyChar(t[0]);
      StripCurrencyChar(t[1]);
    }
  }

  /** The minus sign of a token, if it has one. */
  function SignText(t: string): string {
    var b := SignEnd(t);
    if b > 0 && t[b - 1] == '-' then "-" else ""
  }

  /** The `[\d,]+` part of an amount token. */
  function IntegerPart(t: string): string
    requires IsAmountToken(t)
  {
    t[SignEnd(t)..|t| - 3]
  }

  /** The two digits after the point. */
  function FractionPart(t: string): string
    requires IsAmountToken(t)
  {
    t[|t| - 2..]
  }

  /** The digits of the integer part, grouping commas removed. */
  function IntegerDigits(t: string): (ds: string)
    requires IsAmountToken(t)
    ensures AllDigits(ds)
  {
    StripDigitsOrCommas(IntegerPart(t));
    StripCurrency(IntegerPart(t))
  }

  /** Every accepted token decodes: removing `$` and `,` leaves the optional
      sign, the digits of the integer part (possibly none), the point and the
      two fractional digits. */
  lemma AmountTokenDecodes(t: string)
    requires IsAmountToken(t)
    ensures StripCurrency(t) == SignText(t) + StripCurrency(IntegerPart(t)) + "." + FractionPart(t)
    ensures IsScaledDecimal(StripCurrency(t))
  {
    var b := SignEnd(t);
    var ds := t[b..|t| - 3];
    var frac := t[|t| - 2..];
    assert t == t[..b] + ds + "." + frac;
    StripParts(t[..b], ds, frac);
    StripSignPart(t);
    StripDigitsOrCommas(ds);
    ScaledShape(SignText(t), StripCurrency(ds), frac);
  }

  lemma StripParts(pre: string, ds: string, frac: string)
    requires AllDigits(frac)
    ensures StripCurrency(pre + ds + "." + frac) == StripCurrency(pre) + StripCurrency(ds) + "." + frac
  {
    var tail := "." + frac;
    assert pre + ds + "." + frac == (pre + ds) + tail;
    StripCurrencyAppend(pre + ds, tail);
    StripCurrencyAppend(pre, ds);
    FractionUnchanged(frac);
    AppendAssoc(StripCurrency(pre) + StripCurrency(ds), ".", frac);
  }

  lemma FractionUnchanged(frac: string)
    requires AllDigits(frac)
    ensures StripCurrency("." + frac) == "." + frac
  {
    var tail := "." + frac;
    forall i | 0 <= i < |tail| ensures tail[i] != '$' && tail[i] != ',' {
      if i > 0 {
        assert tail[i] == frac[i - 1];
      }
    }
    StripUnchanged(tail);
  }

  lemma ScaledShape(sign: string, ds: string, frac: string)
    requires sign == "" || sign == "-"
    requires AllDigits(ds) && AllDigits(frac) && |frac| == 2
    ensures IsScaledDecimal(sign + ds + "." + frac)
    ensures var s := sign + ds + "." + frac;
            ScaledDecimalValue(s) == var m := 100 * DigitsValue(ds) + DigitsValue(frac);
                                     if sign == "-" then -m else m
  {
    var s := sign + ds + "." + frac;
    assert s[|sign|..|s| - 3] == ds;
    assert s[|s| - 3] == '.';
    assert s[|s| - 2..] == frac;
    if sign == "" && |ds| > 0 {
      assert s[0] == ds[0];
    }
    if sign == "" && |ds| == 0 {
      assert s[0] == '.';
    }
  }

  /** The amount of a posting-line token, in cents: `$` and `,` are dropped and the
      rest read as an exact two-decimal number. */
  function DecodeAmount(t: string): (c: int)
    requires IsAmountToken(t)
    ensures var magnitude := 100 * DigitsValue(IntegerDigits(t)) + DigitsValue(FractionPart(t));
            c == if SignText(t) == "-" then -magnitude else magnitude
  {
    AmountTokenDecodes(t);
    ScaledShape(SignText(t), IntegerDigits(t), FractionPart(t));
    ScaledDecimalValue(StripCurrency(t))
  }

  function Abs(c: int): nat { if c < 0 then -c else c }

  /** `String.format("%.2f", amount)` for an amount of `c` cents: a `-` for a
      negative amount, the integer part without leading zeros, a point, two digits. */
  function FormatCents(c: int): (s: string)
    ensures forall i | 0 <= i < |s| :: IsDigit(s[i]) || s[i] == '-' || s[i] == '.'
    ensures forall i | 0 <= i < |s| :: s[i] != '$' && s[i] != ','
  {
    var sign := if c < 0 then "-" else "";
    var ip := NatToDecimal(Abs(c) / 100);
    var fp := ZeroPad(Abs(c) % 100, 2);
    var s := sign + ip + "." + fp;
    assert forall i | 0 <= i < |s| :: IsDigit(s[i]) || s[i] == '-' || s[i] == '.' by {
      forall i | 0 <= i < |s|
        ensures IsDigit(s[i]) || s[i] == '-' || s[i] == '.'
      {
        if i < |sign| {
          assert s[i] == sign[i];
        } else if i < |sign| + |ip| {
          assert s[i] == ip[i - |sign|];
        } else if i > |sign| + |ip| {
          assert s[i] == fp[i - |sign| - |ip| - 1];
        }
      }
    }
    s
  }

  /** `%.2f` writes a minus sign exactly for a negative amount, and an integer
      part without leading zeros: it starts with `0` only when it is "0", that
      is when the amount is under one unit. */
  lemma FormatCentsCanonical(c: int)
    ensures var s := FormatCents(c);
            var b := if c < 0 then 1 else 0;
            && |s| >= b + 4 && s[|s| - 3] == '.'
            && (s[0] == '-' <==> c < 0)
            && (s[b] == '0' <==> Abs(c) < 100)
            && (s[b] == '0' ==> b + 1 == |s| - 3)
  {
  }

  /** The token the writer puts after `$`, taken apart: sign, integer digits,
      point, two digits. */
  lemma FormattedTokenParts(c: int, sign: string, ip: string, fp: string)
    requires sign == (if c < 0 then "-" else "")
    requires ip == NatToDecimal(Abs(c) / 100) && fp == ZeroPad(Abs(c) % 100, 2)
    ensures IsAmountToken("$" + FormatCents(c))
    ensures SignText("$" + FormatCents(c)) == sign
    ensures IntegerPart("$" + FormatCents(c)) == ip && FractionPart("$" + FormatCents(c)) == fp
  {
    var t := "$" + FormatCents(c);
    assert t == "$" + sign + ip + "." + fp;
    TokenShape(sign, ip, fp);
  }

  /** `$`, an optional minus sign, digits, a point and two digits make a token. */
  lemma TokenShape(sign: string, ip: string, fp: string)
    requires sign == "" || sign == "-"
    requires |ip| >= 1 && AllDigits(ip) && |fp| == 2 && AllDigits(fp)
    ensures var t := "$" + sign + ip + "." + fp;
            IsAmountToken(t) && SignText(t) == sign && IntegerPart(t) == ip && FractionPart(t) == fp
  {
    var t := "$" + sign + ip + "." + fp;
    assert t[0] == '$';
    if sign == "-" {
      assert t[1] == '-';
    } else {
      assert t[1] == ip[0];
    }
    assert SignEnd(t) == 1 + |sign|;
    assert t[SignEnd(t)..|t| - 3] == ip;
    assert t[|t| - 3] == '.';
    assert t[|t| - 2..] == fp;
  }

  /** What the writer puts after `$` is read back as the same amount. */
  lemma FormatCentsDecodes(c: int)
    ensures IsAmountToken("$" + FormatCents(c))
    ensures DecodeAmount("$" + FormatCents(c)) == c
  {
    var sign := if c < 0 then "-" else "";
    var ip := NatToDecimal(Abs(c) / 100);
    var fp := ZeroPad(Abs(c) % 100, 2);
    FormattedTokenParts(c, sign, ip, fp);
    StripUnchanged(ip);
    NatToDecimalValue(Abs(c) / 100);
    ZeroPadValue(Abs(c) % 100, 2);
  }

  /** A grouping comma between two runs without `$` or `,` is dropped. */
  lemma StripOneComma(a: string, b: string)
    requires forall i | 0 <= i < |a| :: a[i] != '$' && a[i] != ','
    requires forall i | 0 <= i < |b| :: b[i] != '$' && b[i] != ','
    ensures StripCurrency(a + "," + b) == a + b
  {
    StripCurrencyAppend(a + ",", b);
    StripCurrencyAppend(a, ",");
    StripCurrencyChar(',');
    StripUnchanged(a);
    StripUnchanged(b);
    assert a + [] == a;
  }

  lemma StripGroupingExample()
    ensures StripCurrency("1,234") == "1234"
  {
    assert "1,234" == "1" + "," + "234";
    StripOneComma("1", "234");
    assert "1" + "234" == "1234";
  }

  /** Grouping commas and the dollar sign do not change the value. */
  lemma DecodeGroupedExample()
    ensures IsAmountToken("$1,234.56") && DecodeAmount("$1,234.56") == 123456
  {
    var t := "$1,234.56";
    assert t[1..6] == "1,234";
    assert IntegerPart(t) == "1,234";
    StripGroupingExample();
    assert IntegerDigits(t) == "1234";
    assert FractionPart(t) == "56";
    DigitsValue4("1234");
    DigitsValue2("56");
  }

  /** A token with no digit before the point, such as "$,.00", reads as zero. */
  lemma DecodeNoDigitsExample()
    ensures IsAmountToken("$,.00") && DecodeAmount("$,.00") == 0
  {
    var t := "$,.00";
    assert IntegerPart(t) == ",";
    StripCurrencyChar(',');
    assert IntegerDigits(t) == "";
  }

  /** A token without grouping commas decodes to its sign, digits and fraction. */
  lemma DecodeUngrouped(sign: string, ip: string, fp: string)
    requires sign == "" || sign == "-"
    requires |ip| >= 1 && AllDigits(ip) && |fp| == 2 && AllDigits(fp)
    ensures var t := "$" + sign + ip + "." + fp;
            && IsAmountToken(t)
            && DecodeAmount(t) == var m := 100 * DigitsValue(ip) + DigitsValue(fp);
                                  if sign == "-" then -m else m
  {
    TokenShape(sign, ip, fp);
    StripUnchanged(ip);
  }

  /** The sign follows the dollar sign, as the writer puts it. */
  lemma DecodeNegativeExample()
    ensures IsAmountToken("$-7.05") && DecodeAmount("$-7.05") == -705
  {
    assert IsAmountToken("$-7.05") && DecodeAmount("$-7.05") == -(100 * DigitsValue("7") + DigitsValue("05")) by {
      assert "$-7.05" == "$" + "-" + "7" + "." + "05";
      DecodeUngrouped("-", "7", "05");
    }
    assert DigitsValue("7") == 7 by {
      DigitsValueSnoc("", '7');
      assert "" + ['7'] == "7";
    }
    assert DigitsValue("05") == 5 by {
      DigitsValue2("05");
    }
  }
}
