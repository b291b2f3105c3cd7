/**
 * Exif date strings: the "unknown date" blank pattern, the two exact formats
 * "yyyy:MM:dd" and "yyyy:MM:dd HH:mm:ss" (invariant culture), and the
 * formatter that inverts them.
 */
module ExifDates {
  import opened Outcomes

  datatype DateTime = DateTime(year: int, month: int, day: int, hour: int, minute: int, second: int)

  /** `DateTime.MinValue`, also `default(DateTime)`. */
  const MinValue: DateTime := DateTime(1, 1, 1, 0, 0, 0)

  predicate IsLeapYear(y: int)
  {
    y % 4 == 0 && (y % 100 != 0 || y % 400 == 0)
  }

  function DaysInMonth(y: int, m: int): int
    requires 1 <= m <= 12
  {
    if m == 2 then (if IsLeapYear(y) then 29 else 28)
    else if m == 4 || m == 6 || m == 9 || m == 11 then 30
    else 31
  }

  /** The values `DateTime` can hold (years 1 to 9999, calendar days, 24-hour clock). */
  predicate ValidDateTime(d: DateTime)
  {
    && 1 <= d.year <= 9999
    && 1 <= d.month <= 12
    && 1 <= d.day <= DaysInMonth(d.year, d.month)
    && 0 <= d.hour < 24
    && 0 <= d.minute < 60
    && 0 <= d.second < 60
  }

  // ---------------------------------------------------------------------------
  // The blank-date matcher ^[\s0]{4}[:\s][\s0]{2}[:\s][\s0]{5}[:\s][\s0]{2}[:\s][\s0]{2}$

  /** `\s` restricted to the characters an ASCII field can carry. */
  predicate IsSpace(c: char)
  {
    c == ' ' || c == '\t' || c == '\n' || c == 11 as char || c == 12 as char || c == '\r'
  }

  /** The positions where the pattern has `[:\s]` rather than `[\s0]`. */
  predicate IsSeparatorSlot(i: int)
  {
    i == 4 || i == 7 || i == 13 || i == 16
  }

  predicate FitsSlot(s: string, i: int)
    requires 0 <= i < |s|
  {
    if IsSeparatorSlot(i) then s[i] == ':' || IsSpace(s[i]) else s[i] == '0' || IsSpace(s[i])
  }

  predicate BlankPattern(s: string)
  {
    |s| == 19 && forall i :: 0 <= i < 19 ==> FitsSlot(s, i)
  }

  /** A match of the blank-date regex; `$` also matches just before a final '\n'. */
  predicate IsBlankDate(s: string)
  {
    BlankPattern(s) || (|s| == 20 && s[19] == '\n' && BlankPattern(s[..19]))
  }

  // ---------------------------------------------------------------------------
  // DateTime.ParseExact with the formats "yyyy:MM:dd" and "yyyy:MM:dd HH:mm:ss"

  predicate IsDigit(c: char)
  {
    '0' <= c <= '9'
  }

  predicate AllDigits(s: string)
  {
    forall i :: 0 <= i < |s| ==> IsDigit(s[i])
  }

  /** The decimal value of a run of digits. */
  function Number(s: string): nat
    requires AllDigits(s)
  {
    if s == [] then 0 else 10 * Number(s[..|s| - 1]) + ((s[|s| - 1] as int) - ('0' as int))
  }

  /** "yyyy:MM:dd" on the first ten characters. */
  predicate HasDateShape(s: string)
  {
    && |s| >= 10
    && AllDigits(s[0..4]) && s[4] == ':' && AllDigits(s[5..7]) && s[7] == ':' && AllDigits(s[8..10])
  }

  /** " HH:mm:ss" on characters 10 to 18. */
  predicate HasTimeShape(s: string)
  {
    && |s| >= 19
    && s[10] == ' ' && AllDigits(s[11..13]) && s[13] == ':' && AllDigits(s[14..16]) && s[16] == ':'
    && AllDigits(s[17..19])
  }

  function ParseExactDate(s: string): Option<DateTime>
  {
    if |s| == 10 && HasDateShape(s) then
      var d := DateTime(Number(s[0..4]), Number(s[5..7]), Number(s[8..10]), 0, 0, 0);
      if ValidDateTime(d) then Some(d) else None
    else None
  }

  function ParseExactDateTime(s: string): Option<DateTime>
  {
    if |s| == 19 && HasDateShape(s) && HasTimeShape(s) then
      var d := DateTime(Number(s[0..4]), Number(s[5..7]), Number(s[8..10]),
                        Number(s[11..13]), Number(s[14..16]), Number(s[17..19]));
      if ValidDateTime(d) then Some(d) else None
    else None
  }

  /**
   * `ToDateTime`: an empty or blank string is an unknown date (false), ten
   * characters are a plain date, anything else must be a full timestamp;
   * `ParseExact` throws on text that does not fit.
   */
  function ToDateTime(s: string): (r: Result<Lookup<DateTime>>)
    ensures r.Ok? && r.value.Found? ==> ValidDateTime(r.value.value)
    ensures r.Ok? && r.value.Found? && |s| == 10 ==> r.value.value.hour == r.value.value.minute == r.value.value.second == 0
    ensures r.Ok? && r.value.Found? ==> |s| == 10 || |s| == 19
    ensures r.Err? ==> r.error == InvalidDateFormat
    ensures r == Ok(NotFound) <==> s == [] || IsBlankDate(s)
  {
    if s == [] || IsBlankDate(s) then Ok(NotFound)
    else if |s| == 10 then
      match ParseExactDate(s)
      case Some(d) => Ok(Found(d))
      case None => Err(InvalidDateFormat)
    else
      match ParseExactDateTime(s)
      case Some(d) => Ok(Found(d))
      case None => Err(InvalidDateFormat)
  }

  // ---------------------------------------------------------------------------
  // The Exif date formats written out, the partner of ToDateTime

  function Pow10(n: nat): (r: nat)
    ensures r > 0
  {
    if n == 0 then 1 else 10 * Pow10(n - 1)
  }

  /** `n` in `width` zero-padded decimal digits. */
  function Digits(n: nat, width: nat): (r: string)
    ensures |r| == width
  {
    if width == 0 then [] else Digits(n / 10, width - 1) + [(('0' as int) + n % 10) as char]
  }

  /** "yyyy:MM:dd HH:mm:ss". */
  function FormatDateTime(d: DateTime): (r: string)
    requires ValidDateTime(d)
  {
    Digits(d.year, 4) + ":" + Digits(d.month, 2) + ":" + Digits(d.day, 2) + " "
      + Digits(d.hour, 2) + ":" + Digits(d.minute, 2) + ":" + Digits(d.second, 2)
  }

  /** "yyyy:MM:dd". */
  function FormatDate(d: DateTime): (r: string)
    requires ValidDateTime(d)
  {
    Digits(d.year, 4) + ":" + Digits(d.month, 2) + ":" + Digits(d.day, 2)
  }

  lemma {:induction false} DigitsRoundTrip(n: nat, width: nat)
    requires n < Pow10(width)
    ensures AllDigits(Digits(n, width)) && Number(Digits(n, width)) == n
  {
    if width > 0 {
      DigitsRoundTrip(n / 10, width - 1);
      var r := Digits(n, width);
      assert r[..|r| - 1] == Digits(n / 10, width - 1);
    }
  }

  /** A two-digit rendering of a number from 1 to 99 has a digit other than '0'. */
  lemma NonZeroHasNonZeroDigit(n: nat)
    requires 1 <= n < 100
    ensures Digits(n, 2)[0] != '0' || Digits(n, 2)[1] != '0'
  {
    assert Digits(n, 2)[1] == (('0' as int) + n % 10) as char;
    assert Digits(n, 2)[0] == (('0' as int) + (n / 10) % 10) as char;
  }

  /** A slot pattern whose month field holds a month from 1 to 99 is not blank. */
  lemma MonthBreaksBlankPattern(t: string, month: nat)
    requires 1 <= month < 100
    requires |t| >= 7 && t[5..7] == Digits(month, 2)
    ensures !BlankPattern(t)
  {
    NonZeroHasNonZeroDigit(month);
    assert t[5] == Digits(month, 2)[0] && t[6] == Digits(month, 2)[1];
    assert !FitsSlot(t, 5) || !FitsSlot(t, 6);
  }

  /** A formatted valid date is never mistaken for the blank pattern, because its month is not 00. */
  lemma FormattedIsNotBlank(s: string, d: DateTime)
    requires ValidDateTime(d)
    requires |s| >= 10 && s[5..7] == Digits(d.month, 2)
    ensures !IsBlankDate(s)
  {
    MonthBreaksBlankPattern(s, d.month);
    if |s| == 20 {
      assert s[..19][5..7] == s[5..7];
      MonthBreaksBlankPattern(s[..19], d.month);
    }
  }

  /** Every valid timestamp written as "yyyy:MM:dd HH:mm:ss" reads back as itself. */
  lemma DateTimeRoundTrip(d: DateTime)
    requires ValidDateTime(d)
    ensures ToDateTime(FormatDateTime(d)) == Ok(Found(d))
  {
    var s := FormatDateTime(d);
    DigitsRoundTrip(d.year, 4);
    DigitsRoundTrip(d.month, 2);
    DigitsRoundTrip(d.day, 2);
    DigitsRoundTrip(d.hour, 2);
    DigitsRoundTrip(d.minute, 2);
    DigitsRoundTrip(d.second, 2);
    assert s[0..4] == Digits(d.year, 4);
    assert s[5..7] == Digits(d.month, 2);
    assert s[8..10] == Digits(d.day, 2);
    assert s[11..13] == Digits(d.hour, 2);
    assert s[14..16] == Digits(d.minute, 2);
    assert s[17..19] == Digits(d.second, 2);
    FormattedIsNotBlank(s, d);
    assert ParseExactDateTime(s) == Some(d);
  }

  /** Every valid date written as "yyyy:MM:dd" reads back as that day at midnight. */
  lemma DateRoundTrip(d: DateTime)
    requires ValidDateTime(d)
    ensures ToDateTime(FormatDate(d)) == Ok(Found(DateTime(d.year, d.month, d.day, 0, 0, 0)))
  {
    var s := FormatDate(d);
    DigitsRoundTrip(d.year, 4);
    DigitsRoundTrip(d.month, 2);
    DigitsRoundTrip(d.day, 2);
    assert s[0..4] == Digits(d.year, 4);
    assert s[5..7] == Digits(d.month, 2);
    assert s[8..10] == Digits(d.day, 2);
    FormattedIsNotBlank(s, d);
    assert ParseExactDate(s) == Some(DateTime(d.year, d.month, d.day, 0, 0, 0));
  }

  /** The unknown-date forms of Exif 2.2, all blanks or all zeros, are reported as not found. */
  lemma BlankDatesAreUnknown()
    ensures ToDateTime("    :  :     :  :  ") == Ok(NotFound)
    ensures ToDateTime("0000:00:00 00:00:00") == Ok(NotFound)
    ensures ToDateTime("") == Ok(NotFound)
  {
    var a := "    :  :     :  :  ";
    var b := "0000:00:00 00:00:00";
    assert forall i :: 0 <= i < 19 ==> FitsSlot(a, i);
    assert forall i :: 0 <= i < 19 ==> FitsSlot(b, i);
  }
}
