/** Calendar dates as the ledger reads and writes them: the text `yyyy-MM-dd`,
    resolved the way `LocalDate.parse` resolves it with the default (smart) resolver. */
module Dates {
  import opened Wrappers
  import opened Text

  datatype CalendarDate = CalendarDate(year: int, month: int, day: int)

  /** Leap years of the proleptic Gregorian calendar. */
  predicate IsLeapYear(y: int) {
    y % 4 == 0 && (y % 100 != 0 || y % 400 == 0)
  }

  function DaysInMonth(y: int, m: int): int
    requires 1 <= m <= 12
  {
    if m == 2 then (if IsLeapYear(y) then 29 else 28)
    else if m == 4 || m == 6 || m == 9 || m == 11 then 30
    else 31
  }

  /** A day that exists, in a year of the common era that four digits can write. */
  predicate IsValidDate(d: CalendarDate) {
    1 <= d.year <= 9999 && 1 <= d.month <= 12 && 1 <= d.day <= DaysInMonth(d.year, d.month)
  }

  type Date = d: CalendarDate | IsValidDate(d) witness CalendarDate(2000, 1, 1)

  /** `\d{4}-\d{2}-\d{2}`: the date field of a transaction header. */
  predicate IsDateText(s: string) {
    |s| == 10 && AllDigits(s[..4]) && s[4] == '-' && AllDigits(s[5..7]) && s[7] == '-' && AllDigits(s[8..])
  }

  function YearField(s: string): nat requires IsDateText(s) { DigitsValue(s[..4]) }
  function MonthField(s: string): nat requires IsDateText(s) { DigitsValue(s[5..7]) }
  function DayField(s: string): nat requires IsDateText(s) { DigitsValue(s[8..]) }

  /** `LocalDate.parse` throws `DateTimeParseException`; the text is what failed. */
  datatype DateError = DateTimeParseError(text: string)

  /** `LocalDate.parse(text, yyyy-MM-dd)`: a year of era below 1, a month outside
      1..12 or a day outside 1..31 is refused; a day past the end of its month is
      moved back to the month's last day. */
  function ParseDate(text: string): (r: Result<Date, DateError>)
    requires IsDateText(text)
    ensures r.Err? <==> YearField(text) < 1 || MonthField(text) < 1 || MonthField(text) > 12
                        || DayField(text) < 1 || DayField(text) > 31
    ensures r.Err? ==> r.error == DateTimeParseError(text)
    ensures r.Ok? ==> r.value.year == YearField(text) && r.value.month == MonthField(text)
    ensures r.Ok? ==> r.value.day <= DayField(text)
                      && (r.value.day == DayField(text) || r.value.day == DaysInMonth(r.value.year, r.value.month))
  {
    var y, m, d := YearField(text), MonthField(text), DayField(text);
    if y < 1 || m < 1 || m > 12 || d < 1 || d > 31 then Err(DateTimeParseError(text))
    else
      DigitsValueBound(text[..4]);
      var last := DaysInMonth(y, m);
      Ok(CalendarDate(y, m, if d <= last then d else last))
  }

  /** `date.format(yyyy-MM-dd)` for a year of four digits: the date's own year,
      month and day, zero-padded. */
  function FormatDate(d: Date): (s: string)
    ensures IsDateText(s)
    ensures YearField(s) == d.year && MonthField(s) == d.month && DayField(s) == d.day
  {
    var s := ZeroPad(d.year, 4) + "-" + ZeroPad(d.month, 2) + "-" + ZeroPad(d.day, 2);
    assert s[..4] == ZeroPad(d.year, 4);
    assert s[5..7] == ZeroPad(d.month, 2);
    assert s[8..] == ZeroPad(d.day, 2);
    ZeroPadValue(d.year, 4);
    ZeroPadValue(d.month, 2);
    ZeroPadValue(d.day, 2);
    s
  }

  /** Reading back a written date gives the same date: the day is in its month,
      so nothing is clamped. */
  lemma ParseFormatDate(d: Date)
    ensures ParseDate(FormatDate(d)) == Ok(d)
  {
    var s := FormatDate(d);
    assert 1 <= DayField(s) <= DaysInMonth(d.year, d.month) <= 31;
  }

  /** The three fields of a date text, digit by digit. */
  lemma DateFields(text: string)
    requires IsDateText(text)
    ensures YearField(text) == 1000 * DigitValue(text[0]) + 100 * DigitValue(text[1])
                               + 10 * DigitValue(text[2]) + DigitValue(text[3])
    ensures MonthField(text) == 10 * DigitValue(text[5]) + DigitValue(text[6])
    ensures DayField(text) == 10 * DigitValue(text[8]) + DigitValue(text[9])
  {
    DigitsValue4(text[..4]);
    DigitsValue2(text[5..7]);
    DigitsValue2(text[8..]);
  }

  /** Ten characters with digits and dashes in the right places are a date text. */
  lemma DateTextShape(text: string)
    requires |text| == 10 && text[4] == '-' && text[7] == '-'
    requires forall i | 0 <= i < 10 && i != 4 && i != 7 :: IsDigit(text[i])
    ensures IsDateText(text)
  {
    assert AllDigits(text[..4]) by {
      forall i | 0 <= i < 4 ensures IsDigit(text[..4][i]) { assert text[..4][i] == text[i]; }
    }
    assert AllDigits(text[5..7]) by {
      forall i | 0 <= i < 2 ensures IsDigit(text[5..7][i]) { assert text[5..7][i] == text[i + 5]; }
    }
    assert AllDigits(text[8..]) by {
      forall i | 0 <= i < 2 ensures IsDigit(text[8..][i]) { assert text[8..][i] == text[i + 8]; }
    }
  }

  /** February 30th reads as the last day of February, in a common year and in a
      leap year; month 13 and year 0 are refused. */
  lemma ClampedDay(text: string)
    requires text == "2023-02-30"
    ensures IsDateText(text) && ParseDate(text) == Ok(CalendarDate(2023, 2, 28))
  {
    DateTextShape(text);
    DateFields(text);
  }

  lemma ClampedLeapDay(text: string)
    requires text == "2024-02-30"
    ensures IsDateText(text) && ParseDate(text) == Ok(CalendarDate(2024, 2, 29))
  {
    DateTextShape(text);
    DateFields(text);
  }

  lemma MonthOutOfRange(text: string)
    requires text == "2024-13-01"
    ensures IsDateText(text) && ParseDate(text).Err?
  {
    DateTextShape(text);
    DateFields(text);
  }

  lemma YearZero(text: string)
    requires text == "0000-07-29"
    ensures IsDateText(text) && ParseDate(text).Err?
  {
    DateTextShape(text);
    DateFields(text);
  }
}
