/**
  Timestamps at minute precision, the only precision the journal ever stores:
  entry times come from the form format "YYYY-MM-DDTHH:MM" and export bounds
  from "YYYY-MM-DD" (midnight). Parsing is the strict fixed-width reading of
  those formats; formatting is the CSV cell format "YYYY-MM-DD HH:MM".
*/
module Timestamps {
  import opened Wrappers

  datatype DateTime = DateTime(year: int, month: int, day: int, hour: int, minute: int)

  predicate IsLeapYear(year: int) {
    year % 4 == 0 && (year % 100 != 0 || year % 400 == 0)
  }

  function DaysInMonth(year: int, month: int): (n: int)
    requires 1 <= month <= 12
    ensures 28 <= n <= 31
    ensures month == 2 ==> (n == 29 <==> IsLeapYear(year))
  {
    if month == 2 then (if IsLeapYear(year) then 29 else 28)
    else if month == 4 || month == 6 || month == 9 || month == 11 then 30
    else 31
  }

  /** A calendar date-time the datetime type can hold (years 1 to 9999). */
  predicate IsValid(t: DateTime) {
    && 1 <= t.year <= 9999
    && 1 <= t.month <= 12
    && 1 <= t.day <= DaysInMonth(t.year, t.month)
    && 0 <= t.hour < 24
    && 0 <= t.minute < 60
  }

  /** Chronological order: a is not later than b (fields compared lexicographically). */
  predicate NotAfter(a: DateTime, b: DateTime) {
    || a.year < b.year
    || (a.year == b.year && a.month < b.month)
    || (a.year == b.year && a.month == b.month && a.day < b.day)
    || (a.year == b.year && a.month == b.month && a.day == b.day && a.hour < b.hour)
    || (a.year == b.year && a.month == b.month && a.day == b.day && a.hour == b.hour && a.minute <= b.minute)
  }

  lemma NotAfterIsTotalOrder(a: DateTime, b: DateTime, c: DateTime)
    ensures NotAfter(a, a)
    ensures NotAfter(a, b) || NotAfter(b, a)
    ensures NotAfter(a, b) && NotAfter(b, a) ==> a == b
    ensures NotAfter(a, b) && NotAfter(b, c) ==> NotAfter(a, c)
  {
  }

  // ---------------------------------------------------------------- digits

  predicate IsDigit(c: char) {
    '0' <= c <= '9'
  }

  predicate AllDigits(s: string) {
    forall i :: 0 <= i < |s| ==> IsDigit(s[i])
  }

  function Pow10(k: nat): (p: nat)
    ensures p >= 1
  {
    if k == 0 then 1 else 10 * Pow10(k - 1)
  }

  function DigitChar(d: nat): (c: char)
    requires d < 10
    ensures IsDigit(c) && c as int - '0' as int == d
  {
    ('0' as int + d) as char
  }

  /** The number written in decimal by the digit string s. */
  function DigitsValue(s: string): (n: nat)
    requires AllDigits(s)
    ensures n < Pow10(|s|)
  {
    if s == [] then 0
    else DigitsValue(s[..|s| - 1]) * 10 + (s[|s| - 1] as int - '0' as int)
  }

  /** n written with exactly `width` decimal digits, zero-padded on the left. */
  function Pad(n: nat, width: nat): (s: string)
    ensures |s| == width && AllDigits(s)
  {
    if width == 0 then "" else Pad(n / 10, width - 1) + [DigitChar(n % 10)]
  }

  lemma {:induction false} PadThenValue(n: nat, width: nat)
    requires n < Pow10(width)
    ensures DigitsValue(Pad(n, width)) == n
  {
    if width > 0 {
      var s := Pad(n, width);
      assert s[..width - 1] == Pad(n / 10, width - 1);
      PadThenValue(n / 10, width - 1);
    }
  }

  lemma {:induction false} ValueThenPad(s: string)
    requires AllDigits(s)
    ensures Pad(DigitsValue(s), |s|) == s
  {
    if s != [] {
      var init := s[..|s| - 1];
      var d := s[|s| - 1] as int - '0' as int;
      var n := DigitsValue(s);
      assert n == DigitsValue(init) * 10 + d;
      assert n / 10 == DigitsValue(init) && n % 10 == d;
      ValueThenPad(init);
      assert s == init + [s[|s| - 1]];
    }
  }

  // ------------------------------------------------------- text formats

  /** strftime('%Y-%m-%d'): the date part of every rendered time, and the text of an export bound. */
  function FormatDate(t: DateTime): (s: string)
    requires IsValid(t)
    ensures |s| == 10
  {
    Pad(t.year, 4) + "-" + Pad(t.month, 2) + "-" + Pad(t.day, 2)
  }

  /** The date, then `sep`, then the time of day as HH:MM. */
  function FormatWith(t: DateTime, sep: char): (s: string)
    requires IsValid(t)
    ensures |s| == 16
  {
    FormatDate(t) + [sep] + Pad(t.hour, 2) + ":" + Pad(t.minute, 2)
  }

  /** strftime('%Y-%m-%d %H:%M'), the format of the exported From and To cells. */
  function FormatCell(t: DateTime): string
    requires IsValid(t)
  {
    FormatWith(t, ' ')
  }

  /** The entry form's input format "%Y-%m-%dT%H:%M". */
  function FormatLocal(t: DateTime): string
    requires IsValid(t)
  {
    FormatWith(t, 'T')
  }

  /** strptime(s, '%Y-%m-%d'): a date at midnight, or None (ValueError). */
  function ParseDate(s: string): (r: Option<DateTime>)
    ensures r.Some? ==> IsValid(r.value) && r.value.hour == 0 && r.value.minute == 0
  {
    if |s| == 10 && s[4] == '-' && s[7] == '-'
       && AllDigits(s[..4]) && AllDigits(s[5..7]) && AllDigits(s[8..])
    then
      var t := DateTime(DigitsValue(s[..4]), DigitsValue(s[5..7]), DigitsValue(s[8..]), 0, 0);
      if IsValid(t) then Some(t) else None
    else None
  }

  /** strptime(s, '%Y-%m-%dT%H:%M'), or None (ValueError). */
  function ParseDateTimeLocal(s: string): (r: Option<DateTime>)
    ensures r.Some? ==> IsValid(r.value)
  {
    if |s| == 16 && s[4] == '-' && s[7] == '-' && s[10] == 'T' && s[13] == ':'
       && AllDigits(s[..4]) && AllDigits(s[5..7]) && AllDigits(s[8..10])
       && AllDigits(s[11..13]) && AllDigits(s[14..])
    then
      var t := DateTime(DigitsValue(s[..4]), DigitsValue(s[5..7]), DigitsValue(s[8..10]),
                        DigitsValue(s[11..13]), DigitsValue(s[14..]));
      if IsValid(t) then Some(t) else None
    else None
  }

  /** Only canonical text parses: formatting a parsed date gives the input back. */
  lemma ParseDateCanonical(s: string)
    requires ParseDate(s).Some?
    ensures FormatDate(ParseDate(s).value) == s
  {
    ValueThenPad(s[..4]);
    ValueThenPad(s[5..7]);
    ValueThenPad(s[8..]);
    assert s == s[..4] + "-" + s[5..7] + "-" + s[8..];
  }

  /** Every valid date at midnight is reached by parsing its own text. */
  lemma FormatDateParses(t: DateTime)
    requires IsValid(t) && t.hour == 0 && t.minute == 0
    ensures ParseDate(FormatDate(t)) == Some(t)
  {
    var s := FormatDate(t);
    assert s[..4] == Pad(t.year, 4) && s[5..7] == Pad(t.month, 2) && s[8..] == Pad(t.day, 2);
    PadThenValue(t.year, 4);
    PadThenValue(t.month, 2);
    PadThenValue(t.day, 2);
  }

  /** Only canonical text parses: formatting a parsed entry time gives the input back. */
  lemma ParseLocalCanonical(s: string)
    requires ParseDateTimeLocal(s).Some?
    ensures FormatLocal(ParseDateTimeLocal(s).value) == s
  {
    ValueThenPad(s[..4]);
    ValueThenPad(s[5..7]);
    ValueThenPad(s[8..10]);
    ValueThenPad(s[11..13]);
    ValueThenPad(s[14..]);
    assert s == s[..4] + "-" + s[5..7] + "-" + s[8..10] + "T" + s[11..13] + ":" + s[14..];
  }

  /** Every valid minute-precision time is reached by parsing its own form text. */
  lemma FormatLocalParses(t: DateTime)
    requires IsValid(t)
    ensures ParseDateTimeLocal(FormatLocal(t)) == Some(t)
  {
    var s := FormatLocal(t);
    var date := FormatDate(t);
    assert s == date + "T" + Pad(t.hour, 2) + ":" + Pad(t.minute, 2);
    assert s[..10] == date;
    assert s[..4] == Pad(t.year, 4) && s[5..7] == Pad(t.month, 2) && s[8..10] == Pad(t.day, 2);
    assert s[11..13] == Pad(t.hour, 2) && s[14..] == Pad(t.minute, 2);
    assert s[4] == '-' && s[7] == '-' && s[10] == 'T' && s[13] == ':';
    PadThenValue(t.year, 4);
    PadThenValue(t.month, 2);
    PadThenValue(t.day, 2);
    PadThenValue(t.hour, 2);
    PadThenValue(t.minute, 2);
  }

  /**
    A form time that parses comes out in the CSV as the same text with the
    'T' replaced by a space.
  */
  lemma CellOfFormInput(s: string)
    requires ParseDateTimeLocal(s).Some?
    ensures FormatCell(ParseDateTimeLocal(s).value) == s[..10] + " " + s[11..]
  {
    var t := ParseDateTimeLocal(s).value;
    ParseLocalCanonical(s);
    assert FormatLocal(t)[..10] == FormatDate(t);
    assert FormatLocal(t)[11..] == FormatCell(t)[11..];
    assert FormatCell(t) == FormatDate(t) + " " + FormatCell(t)[11..];
  }
}
