/**
 * The part of Go's `time` package the generator relies on, for dates at
 * midnight UTC: parsing with the layout "20060102" and formatting with
 * `time.RFC1123Z`.
 */
module Calendar {
  import opened Results
  import opened Strings

  /** A calendar date; as a timestamp it stands for 00:00:00 UTC of that day. */
  datatype Date = Date(year: int, month: int, day: int)

  /** Go's `isLeap`: the proleptic Gregorian rule. */
  predicate IsLeap(year: int) {
    year % 4 == 0 && (year % 100 != 0 || year % 400 == 0)
  }

  /** Go's `daysIn`: the number of days of `month` (1-12) in `year`. */
  function DaysIn(year: int, month: int): (n: int)
    requires 1 <= month <= 12
    ensures 28 <= n <= 31
    ensures n == 29 <==> month == 2 && IsLeap(year)
    ensures n == 31 <==> month in {1, 3, 5, 7, 8, 10, 12}
    ensures n == 30 <==> month in {4, 6, 9, 11}
  {
    if month == 2 then (if IsLeap(year) then 29 else 28)
    else if month in {4, 6, 9, 11} then 30
    else 31
  }

  /** A date whose year has four decimal digits, with a month 01-12 and a day within that month. */
  predicate ValidDate(d: Date) {
    0 <= d.year <= 9999 && 1 <= d.month <= 12 && 1 <= d.day <= DaysIn(d.year, d.month)
  }

  /** The instants a post can carry: a date that "20060102" accepts, at midnight UTC. */
  type Timestamp = d: Date | ValidDate(d) witness Date(1970, 1, 1)

  /** `t.After(u)` for midnight instants: a later date, compared year, then month, then day. */
  predicate After(t: Date, u: Date) {
    t.year > u.year ||
    (t.year == u.year && (t.month > u.month || (t.month == u.month && t.day > u.day)))
  }

  /** `After` is a strict total order on dates: the sort can compare any two posts. */
  lemma AfterIsStrictTotalOrder(t: Date, u: Date, v: Date)
    ensures !After(t, t)
    ensures After(t, u) ==> !After(u, t)
    ensures After(t, u) && After(u, v) ==> After(t, v)
    ensures t != u ==> After(t, u) || After(u, t)
  {
  }

  predicate IsDigit(b: Byte) {
    0x30 <= b <= 0x39
  }

  function DigitValue(b: Byte): int {
    b - 0x30
  }

  function Digit(n: int): Byte
    requires 0 <= n <= 9
  {
    0x30 + n
  }

  /** The value of two decimal digits. */
  function Number2(s: Bytes): int
    requires |s| == 2
  {
    10 * DigitValue(s[0]) + DigitValue(s[1])
  }

  /** The value of four decimal digits. */
  function Number4(s: Bytes): int
    requires |s| == 4
  {
    1000 * DigitValue(s[0]) + 100 * DigitValue(s[1]) + 10 * DigitValue(s[2]) + DigitValue(s[3])
  }

  /**
   * `time.Parse("20060102", s)` at midnight UTC. "2006" takes exactly four
   * digits, "01" and "02" exactly two each, nothing may follow, the month must
   * be 01-12 and the day must exist in that month of that year; otherwise the
   * parse fails.
   */
  function ParseDate(s: Bytes): Option<Timestamp> {
    if |s| == 8 && forall i :: 0 <= i < 8 ==> IsDigit(s[i]) then
      var d := Date(Number4(s[..4]), Number2(s[4..6]), Number2(s[6..]));
      if ValidDate(d) then Some(d) else None
    else None
  }

  /** `t.Format("20060102")`: the date as eight digits, YYYYMMDD. */
  function DateDigits(d: Timestamp): (r: Bytes)
    ensures |r| == 8 && forall i :: 0 <= i < 8 ==> IsDigit(r[i])
  {
    [Digit(d.year / 1000), Digit(d.year / 100 % 10), Digit(d.year / 10 % 10), Digit(d.year % 10),
     Digit(d.month / 10), Digit(d.month % 10),
     Digit(d.day / 10), Digit(d.day % 10)]
  }

  /** Every timestamp is read back from its eight digits. */
  lemma ParseDateDigits(d: Timestamp)
    ensures ParseDate(DateDigits(d)) == Some(d)
  {
    var s := DateDigits(d);
    DigitsOfYear(d.year);
    TwoDigits(d.month / 10, d.month % 10);
    TwoDigits(d.day / 10, d.day % 10);
    assert Number4(s[..4]) == d.year;
    assert Number2(s[4..6]) == d.month;
    assert Number2(s[6..]) == d.day;
  }

  lemma FourDigits(a: int, b: int, c: int, e: int)
    requires 0 <= a <= 9 && 0 <= b <= 9 && 0 <= c <= 9 && 0 <= e <= 9
    ensures var n := 1000 * a + 100 * b + 10 * c + e;
      n / 1000 == a && n / 100 % 10 == b && n / 10 % 10 == c && n % 10 == e
  {
    var n := 1000 * a + 100 * b + 10 * c + e;
    assert n / 10 == 100 * a + 10 * b + c;
    assert n / 100 == 10 * a + b;
  }

  lemma DigitsOfYear(y: int)
    requires 0 <= y <= 9999
    ensures 1000 * (y / 1000) + 100 * (y / 100 % 10) + 10 * (y / 10 % 10) + y % 10 == y
    ensures 0 <= y / 1000 <= 9
  {
    assert y == 10 * (y / 10) + y % 10;
    assert y / 10 == 10 * (y / 100) + y / 10 % 10;
    assert y / 100 == 10 * (y / 1000) + y / 100 % 10;
  }

  lemma TwoDigits(a: int, e: int)
    requires 0 <= a <= 9 && 0 <= e <= 9
    ensures (10 * a + e) / 10 == a && (10 * a + e) % 10 == e
  {
  }

  /** A string that parses is the eight-digit spelling of the date it yields. */
  lemma ParsedDateDigits(s: Bytes, d: Timestamp)
    requires ParseDate(s) == Some(d)
    ensures DateDigits(d) == s
  {
    FourDigits(DigitValue(s[0]), DigitValue(s[1]), DigitValue(s[2]), DigitValue(s[3]));
    TwoDigits(DigitValue(s[4]), DigitValue(s[5]));
    TwoDigits(DigitValue(s[6]), DigitValue(s[7]));
    var r := DateDigits(d);
    forall i | 0 <= i < 8 ensures r[i] == s[i] {
    }
  }

  /** The days of the months before `month` in `year`. */
  function DaysBefore(year: int, month: int): int
    requires 1 <= month <= 12
  {
    [0, 31, 59, 90, 120, 151, 181, 212, 243, 273, 304, 334][month - 1] +
    (if month > 2 && IsLeap(year) then 1 else 0)
  }

  /** Days from Monday, 0001-01-01 to `d` in the proleptic Gregorian calendar. */
  function DaysSinceFirstMonday(d: Timestamp): int {
    var y := d.year - 1;
    365 * y + y / 4 - y / 100 + y / 400 + DaysBefore(d.year, d.month) + d.day - 1
  }

  const WeekdayNames: seq<Bytes> :=
    [Ascii("Mon"), Ascii("Tue"), Ascii("Wed"), Ascii("Thu"), Ascii("Fri"), Ascii("Sat"), Ascii("Sun")]

  const MonthNames: seq<Bytes> :=
    [Ascii("Jan"), Ascii("Feb"), Ascii("Mar"), Ascii("Apr"), Ascii("May"), Ascii("Jun"),
     Ascii("Jul"), Ascii("Aug"), Ascii("Sep"), Ascii("Oct"), Ascii("Nov"), Ascii("Dec")]

  /** The clock and zone of a midnight UTC instant under `time.RFC1123Z`. */
  const MidnightUTC: Bytes := Ascii(" 00:00:00 +0000")

  /**
   * `t.UTC().Format(time.RFC1123Z)`, that is "Mon, 02 Jan 2006 15:04:05 -0700",
   * for a timestamp at midnight UTC.
   */
  function FormatRFC1123Z(d: Timestamp): (r: Bytes)
    ensures |r| == 31 && r[..3] == WeekdayNames[DaysSinceFirstMonday(d) % 7]
    ensures r[3..5] == Ascii(", ") && r[7..8] == r[11..12] == [Space]
    ensures r[5..7] == DateDigits(d)[6..] && r[8..11] == MonthNames[d.month - 1]
    ensures r[12..16] == DateDigits(d)[..4] && r[16..] == MidnightUTC
  {
    var digits := DateDigits(d);
    WeekdayNames[DaysSinceFirstMonday(d) % 7] + Ascii(", ") + digits[6..] + [Space] +
    MonthNames[d.month - 1] + [Space] + digits[..4] + MidnightUTC
  }

  /** 15 January 2024 was a Monday, so its formatted date starts with "Mon". */
  lemma FormatExample()
    ensures FormatRFC1123Z(Date(2024, 1, 15))[..3] == Ascii("Mon")
  {
    assert DaysSinceFirstMonday(Date(2024, 1, 15)) == 738899 == 7 * 105557;
  }
}
