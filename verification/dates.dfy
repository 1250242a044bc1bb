/** Calendar dates and the `'%Y-%m-%d'` format that the listing filters and
    the letter forms read dates in (`datetime.strptime` and WTForms' `DateField`). */
module Dates {
  import opened Wrappers
  import opened Text

  datatype Date = Date(year: int, month: int, day: int)

  predicate IsLeapYear(y: int) {
    y % 4 == 0 && (y % 100 != 0 || y % 400 == 0)
  }

  /** Days in month `m` of the proleptic Gregorian calendar, as Python's `datetime` counts them. */
  function DaysInMonth(y: int, m: int): int {
    if m == 2 then (if IsLeapYear(y) then 29 else 28)
    else if m == 4 || m == 6 || m == 9 || m == 11 then 30
    else 31
  }

  /** A date Python's `datetime.date` can represent. */
  predicate ValidDate(d: Date) {
    && 1 <= d.year <= 9999
    && 1 <= d.month <= 12
    && 1 <= d.day <= DaysInMonth(d.year, d.month)
  }

  /** Chronological order. */
  predicate DateLe(a: Date, b: Date) {
    a.year < b.year || (a.year == b.year && (a.month < b.month || (a.month == b.month && a.day <= b.day)))
  }

  /** The strings the `%m` directive accepts: `1[0-2]|0[1-9]|[1-9]`. */
  predicate MonthToken(t: string) {
    || (|t| == 1 && '1' <= t[0] <= '9')
    || (|t| == 2 && t[0] == '1' && '0' <= t[1] <= '2')
    || (|t| == 2 && t[0] == '0' && '1' <= t[1] <= '9')
  }

  /** The strings the `%d` directive accepts as the whole rest of the input:
      `3[01]|[12]\d|0[1-9]|[1-9]| [1-9]`. */
  predicate DayToken(t: string) {
    || (|t| == 1 && '1' <= t[0] <= '9')
    || (|t| == 2 && t[0] == '3' && (t[1] == '0' || t[1] == '1'))
    || (|t| == 2 && (t[0] == '1' || t[0] == '2') && IsDigit(t[1]))
    || (|t| == 2 && t[0] == '0' && '1' <= t[1] <= '9')
    || (|t| == 2 && t[0] == ' ' && '1' <= t[1] <= '9')
  }

  /** `int()` of a month or day token; `int` ignores the leading blank of `" 7"`. */
  function TokenValue(t: string): nat
    requires MonthToken(t) || DayToken(t)
  {
    if t[0] == ' ' then DigitValue(t[1]) else Number(t)
  }

  /** `datetime.strptime(s, '%Y-%m-%d').date()`: `None` stands for the `ValueError`
      raised on text that does not match, on unconverted trailing text, and on a
      day that does not exist (`2023-02-29`) or the year 0. */
  function ParseIsoDate(s: string): (r: Option<Date>)
    ensures r.Some? ==> ValidDate(r.value)
  {
    if |s| < 8 || !AllDigits(s[..4]) || s[4] != '-' then None
    else
      var rest := s[5..];
      match IndexOf(rest, '-')
      case None => None
      case Some(k) =>
        var m := rest[..k];
        var d := rest[k + 1..];
        if MonthToken(m) && DayToken(d) then
          var date := Date(Number(s[..4]), TokenValue(m), TokenValue(d));
          if ValidDate(date) then Some(date) else None
        else None
  }

  /** The zero-padded `YYYY-MM-DD` text of a date, as an HTML date input submits it. */
  function FormatIsoDate(d: Date): (s: string)
    requires ValidDate(d)
    ensures |s| == 10
  {
    Pad(d.year, 4) + "-" + Pad(d.month, 2) + "-" + Pad(d.day, 2)
  }

  lemma MonthTokenOfValue(t: string)
    requires |t| == 2 && AllDigits(t) && 1 <= Number(t) <= 12
    ensures MonthToken(t) && TokenValue(t) == Number(t)
  {
    NumberOfTwo(t);
  }

  lemma DayTokenOfValue(t: string)
    requires |t| == 2 && AllDigits(t) && 1 <= Number(t) <= 31
    ensures DayToken(t) && TokenValue(t) == Number(t)
  {
    NumberOfTwo(t);
  }

  /** Every representable date survives formatting and parsing. */
  lemma ParseFormatRoundTrip(d: Date)
    requires ValidDate(d)
    ensures ParseIsoDate(FormatIsoDate(d)) == Some(d)
  {
    var y, m, dd := Pad(d.year, 4), Pad(d.month, 2), Pad(d.day, 2);
    var s := FormatIsoDate(d);
    assert s[..4] == y && s[4] == '-';
    NumberPad(d.year, 4);
    NumberPad(d.month, 2);
    NumberPad(d.day, 2);
    var rest := s[5..];
    assert rest == m + ['-'] + dd;
    assert '-' !in m by {
      assert forall i :: 0 <= i < |m| ==> IsDigit(m[i]);
    }
    IndexOfFirstSep(m, dd, '-');
    assert rest[..2] == m && rest[3..] == dd;
    MonthTokenOfValue(m);
    DayTokenOfValue(dd);
  }
}
