/**
 * UTC instants as calendar fields, their chronological order, the month
 * window the report scans, and Go's `time.DateTime` layout
 * ("2006-01-02 15:04:05").
 */
module DateTimes {
  import opened Strings

  datatype DateTime = DateTime(year: int, month: int, day: int,
                               hour: int, minute: int, second: int, nanosecond: int)

  predicate IsLeapYear(y: int)
  {
    y % 4 == 0 && (y % 100 != 0 || y % 400 == 0)
  }

  function DaysInMonth(y: int, m: int): (d: int)
    requires 1 <= m <= 12
    ensures m == 2 ==> (d == 29 <==> IsLeapYear(y)) && (d == 28 <==> !IsLeapYear(y))
    ensures (m == 4 || m == 6 || m == 9 || m == 11) ==> d == 30
    ensures m in {1, 3, 5, 7, 8, 10, 12} ==> d == 31
  {
    if m == 2 then (if IsLeapYear(y) then 29 else 28)
    else if m == 4 || m == 6 || m == 9 || m == 11 then 30
    else 31
  }

  /** The fields name a real instant of the proleptic Gregorian calendar. */
  predicate Valid(d: DateTime)
  {
    1 <= d.month <= 12 && 1 <= d.day <= DaysInMonth(d.year, d.month)
    && 0 <= d.hour < 24 && 0 <= d.minute < 60 && 0 <= d.second < 60
    && 0 <= d.nanosecond < 1000000000
  }

  /** Chronological order of instants: lexicographic on the fields. */
  predicate NotAfter(a: DateTime, b: DateTime)
  {
    if a.year != b.year then a.year < b.year
    else if a.month != b.month then a.month < b.month
    else if a.day != b.day then a.day < b.day
    else if a.hour != b.hour then a.hour < b.hour
    else if a.minute != b.minute then a.minute < b.minute
    else if a.second != b.second then a.second < b.second
    else a.nanosecond <= b.nanosecond
  }

  /** The instant `time.Parse("2006-01", …)` returns: midnight UTC on the first of the month. */
  function MonthStart(y: int, m: int): (d: DateTime)
    ensures 1 <= m <= 12 ==> Valid(d) && d.year == y && d.month == m
    ensures forall x :: Valid(x) && x.year == y && x.month == m ==> NotAfter(d, x)
  {
    DateTime(y, m, 1, 0, 0, 0, 0)
  }

  /** `MonthStart(y, m).AddDate(0, 1, 0).Add(-time.Nanosecond)`: the last nanosecond of the month. */
  function MonthEnd(y: int, m: int): (d: DateTime)
    requires 1 <= m <= 12
    ensures Valid(d) && d.year == y && d.month == m
    ensures forall x :: Valid(x) && x.year == y && x.month == m ==> NotAfter(x, d)
  {
    DateTime(y, m, DaysInMonth(y, m), 23, 59, 59, 999999999)
  }

  predicate InWindow(d: DateTime, from: DateTime, to: DateTime)
  {
    NotAfter(from, d) && NotAfter(d, to)
  }

  /**
   * The inclusive window [start, start + 1 month - 1ns] holds exactly the
   * instants of that calendar month.
   */
  lemma MonthWindow(d: DateTime, y: int, m: int)
    requires Valid(d) && 1 <= m <= 12
    ensures InWindow(d, MonthStart(y, m), MonthEnd(y, m)) <==> d.year == y && d.month == m
  {
  }

  /** Go's appendInt: a minus sign for negatives, then the magnitude zero-padded to `width`. */
  function PadInt(x: int, width: nat): string
  {
    if x < 0 then "-" + Pad(-x, width) else Pad(x, width)
  }

  /** `t.Format(time.DateTime)`: "YYYY-MM-DD HH:MM:SS". */
  function FormatDateTime(d: DateTime): string
  {
    FormatDate(d) + " " + FormatClock(d)
  }

  function FormatDate(d: DateTime): string
  {
    PadInt(d.year, 4) + "-" + PadInt(d.month, 2) + "-" + PadInt(d.day, 2)
  }

  function FormatClock(d: DateTime): string
  {
    PadInt(d.hour, 2) + ":" + PadInt(d.minute, 2) + ":" + PadInt(d.second, 2)
  }

  /** Where the six fields and five separators sit in a text laid out as "YYYY-MM-DD HH:MM:SS". */
  lemma Layout19<T>(a: seq<T>, b: seq<T>, c: seq<T>, e: seq<T>, g: seq<T>, i: seq<T>,
                    x: T, y: T, z: T, f: T, h: T, s: seq<T>)
    requires |a| == 4 && |b| == 2 && |c| == 2 && |e| == 2 && |g| == 2 && |i| == 2
    requires s == (a + [x] + b + [y] + c) + [z] + (e + [f] + g + [h] + i)
    ensures |s| == 19 && s[4] == x && s[7] == y && s[10] == z && s[13] == f && s[16] == h
    ensures s[0..4] == a && s[5..7] == b && s[8..10] == c && s[11..13] == e && s[14..16] == g && s[17..19] == i
  {
  }

  /**
   * For a valid instant of years 0..9999 the formatted text is 19
   * characters with the layout's separators in place, and each field reads
   * back as the instant's own field (the nanoseconds are dropped).
   */
  lemma FormatDateTimeFields(d: DateTime)
    requires Valid(d) && 0 <= d.year <= 9999
    ensures var s := FormatDateTime(d);
      |s| == 19 && s[4] == '-' && s[7] == '-' && s[10] == ' ' && s[13] == ':' && s[16] == ':'
      && AllDigits(s[0..4]) && DigitsValue(s[0..4]) == d.year
      && AllDigits(s[5..7]) && DigitsValue(s[5..7]) == d.month
      && AllDigits(s[8..10]) && DigitsValue(s[8..10]) == d.day
      && AllDigits(s[11..13]) && DigitsValue(s[11..13]) == d.hour
      && AllDigits(s[14..16]) && DigitsValue(s[14..16]) == d.minute
      && AllDigits(s[17..19]) && DigitsValue(s[17..19]) == d.second
  {
    assert Pow10(4) == 10000 && Pow10(2) == 100;
    PadRoundTrip(d.year, 4);
    PadRoundTrip(d.month, 2);
    PadRoundTrip(d.day, 2);
    PadRoundTrip(d.hour, 2);
    PadRoundTrip(d.minute, 2);
    PadRoundTrip(d.second, 2);
    Layout19(Pad(d.year, 4), Pad(d.month, 2), Pad(d.day, 2), Pad(d.hour, 2), Pad(d.minute, 2), Pad(d.second, 2),
             '-', '-', ' ', ':', ':', FormatDateTime(d));
  }
}
