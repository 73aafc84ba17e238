/** Dates and minute-precision times as the event manager spells, parses
 *  and compares them: the canonical `DD-MM-YYYY` and `HH:MM` text, the
 *  proleptic Gregorian calendar of Python's `datetime` (years 1 to 9999),
 *  and instants counted in minutes on one day-aware timeline.
 */
module Calendar {
  import opened Wrappers

  datatype Date = Date(day: int, month: int, year: int)
  datatype TimeOfDay = TimeOfDay(hour: int, minute: int)
  datatype DateTime = DateTime(date: Date, time: TimeOfDay)

  /** The largest year a Python `date` can hold. */
  const MAX_YEAR: int := 9999

  predicate IsLeapYear(y: int) {
    y % 4 == 0 && (y % 100 != 0 || y % 400 == 0)
  }

  function DaysInYear(y: int): int {
    if IsLeapYear(y) then 366 else 365
  }

  function DaysInMonth(m: int, y: int): int {
    if m == 2 then (if IsLeapYear(y) then 29 else 28)
    else if m == 4 || m == 6 || m == 9 || m == 11 then 30
    else 31
  }

  predicate ValidDate(d: Date) {
    1 <= d.year <= MAX_YEAR && 1 <= d.month <= 12 && 1 <= d.day <= DaysInMonth(d.month, d.year)
  }

  predicate ValidTime(t: TimeOfDay) {
    0 <= t.hour < 24 && 0 <= t.minute < 60
  }

  predicate ValidDateTime(dt: DateTime) {
    ValidDate(dt.date) && ValidTime(dt.time)
  }

  /** The last instant a Python `datetime` stepped by whole hours from midnight can reach. */
  const LAST_HOUR: DateTime := DateTime(Date(31, 12, MAX_YEAR), TimeOfDay(23, 0))

  // ---------------------------------------------------------------------------
  // Day numbers and instants
  // ---------------------------------------------------------------------------

  /** Days in the years before `y`, counted one year at a time. */
  function DaysBeforeYear(y: int): int
    requires 1 <= y
    decreases y
  {
    if y == 1 then 0 else DaysBeforeYear(y - 1) + DaysInYear(y - 1)
  }

  function DaysBeforeMonth(m: int, y: int): int
    requires 1 <= m <= 12
  {
    [0, 31, 59, 90, 120, 151, 181, 212, 243, 273, 304, 334][m - 1]
      + (if m > 2 && IsLeapYear(y) then 1 else 0)
  }

  /** The day number of Python's `date.toordinal()`: 01-01-0001 is day 1. */
  function Ordinal(d: Date): int
    requires ValidDate(d)
  {
    DaysBeforeYear(d.year) + DaysBeforeMonth(d.month, d.year) + d.day
  }

  /** Minutes since the epoch; a day has 1440 of them. */
  function Instant(dt: DateTime): int
    requires ValidDateTime(dt)
  {
    Ordinal(dt.date) * 1440 + dt.time.hour * 60 + dt.time.minute
  }

  /** Counting multiples of 4, 100 and 400 up to p + 1 adds one exactly
   *  when p + 1 is one. */
  lemma MultiplesStep(p: int)
    requires 0 <= p
    ensures (p + 1) / 4 == p / 4 + (if (p + 1) % 4 == 0 then 1 else 0)
    ensures (p + 1) / 100 == p / 100 + (if (p + 1) % 100 == 0 then 1 else 0)
    ensures (p + 1) / 400 == p / 400 + (if (p + 1) % 400 == 0 then 1 else 0)
  {
  }

  /** A multiple of 400 is one of 100, and a multiple of 100 one of 4. */
  lemma MultiplesNest(y: int)
    ensures y % 400 == 0 ==> y % 100 == 0
    ensures y % 100 == 0 ==> y % 4 == 0
  {
  }

  /** The year count agrees with the closed form Python's calendar code
   *  uses: 365 days a year plus one for every fourth year, less the
   *  centuries, plus every fourth century. */
  lemma {:induction false} DaysBeforeYearClosedForm(y: int)
    requires 1 <= y
    ensures var p := y - 1; DaysBeforeYear(y) == 365 * p + p / 4 - p / 100 + p / 400
    decreases y
  {
    if y > 1 {
      DaysBeforeYearClosedForm(y - 1);
      MultiplesStep(y - 2);
      MultiplesNest(y - 1);
    }
  }

  lemma {:induction false} DaysBeforeYearMonotone(y1: int, y2: int)
    requires 1 <= y1 < y2
    ensures DaysBeforeYear(y1) + DaysInYear(y1) <= DaysBeforeYear(y2)
    decreases y2 - y1
  {
    if y1 + 1 < y2 {
      DaysBeforeYearMonotone(y1 + 1, y2);
    }
  }

  lemma DaysBeforeMonthStep(m: int, y: int)
    requires 1 <= m <= 12
    ensures m < 12 ==> DaysBeforeMonth(m + 1, y) == DaysBeforeMonth(m, y) + DaysInMonth(m, y)
    ensures m == 12 ==> DaysBeforeMonth(m, y) + DaysInMonth(m, y) == DaysInYear(y)
  {
  }

  lemma {:induction false} DaysBeforeMonthMonotone(m1: int, m2: int, y: int)
    requires 1 <= m1 < m2 <= 12
    ensures DaysBeforeMonth(m1, y) + DaysInMonth(m1, y) <= DaysBeforeMonth(m2, y)
    decreases m2 - m1
  {
    DaysBeforeMonthStep(m1, y);
    if m1 + 1 < m2 {
      DaysBeforeMonthMonotone(m1 + 1, m2, y);
    }
  }

  /** A valid date falls inside its own year's block of day numbers. */
  lemma OrdinalWithinYear(d: Date)
    requires ValidDate(d)
    ensures DaysBeforeYear(d.year) < Ordinal(d) <= DaysBeforeYear(d.year) + DaysInYear(d.year)
  {
    if d.month < 12 {
      DaysBeforeMonthMonotone(d.month, 12, d.year);
    }
    DaysBeforeMonthStep(12, d.year);
  }

  /** Calendar order: (year, month, day) compared lexicographically, as Python compares dates. */
  predicate DateBefore(a: Date, b: Date) {
    a.year < b.year
    || (a.year == b.year && a.month < b.month)
    || (a.year == b.year && a.month == b.month && a.day < b.day)
  }

  /** Day numbers respect calendar order in both directions; in particular
   *  two valid dates with the same day number are the same date. */
  lemma OrdinalOrder(a: Date, b: Date)
    requires ValidDate(a) && ValidDate(b)
    ensures DateBefore(a, b) <==> Ordinal(a) < Ordinal(b)
    ensures a == b <==> Ordinal(a) == Ordinal(b)
  {
    OrdinalWithinYear(a);
    OrdinalWithinYear(b);
    if a.year < b.year {
      DaysBeforeYearMonotone(a.year, b.year);
    } else if b.year < a.year {
      DaysBeforeYearMonotone(b.year, a.year);
    } else if a.month < b.month {
      DaysBeforeMonthMonotone(a.month, b.month, a.year);
    } else if b.month < a.month {
      DaysBeforeMonthMonotone(b.month, a.month, a.year);
    }
  }

  // ---------------------------------------------------------------------------
  // Stepping forward, as `datetime + timedelta` does
  // ---------------------------------------------------------------------------

  /** The day after `d`, or None past 31-12-9999 (Python raises OverflowError there). */
  function NextDate(d: Date): (r: Option<Date>)
    requires ValidDate(d)
    ensures r.None? <==> d == Date(31, 12, MAX_YEAR)
    ensures r.Some? ==> ValidDate(r.value)
  {
    if d.day < DaysInMonth(d.month, d.year) then
      Some(Date(d.day + 1, d.month, d.year))
    else if d.month < 12 then
      Some(Date(1, d.month + 1, d.year))
    else if d.year < MAX_YEAR then
      Some(Date(1, 1, d.year + 1))
    else
      None
  }

  /** The day after `d` is the next day number. */
  lemma NextDateIsNextDay(d: Date)
    requires ValidDate(d) && NextDate(d).Some?
    ensures Ordinal(NextDate(d).value) == Ordinal(d) + 1
  {
    if d.day == DaysInMonth(d.month, d.year) {
      DaysBeforeMonthStep(d.month, d.year);
    }
  }

  /** `dt + timedelta(minutes=60)`, or None when that leaves the calendar. */
  function AddHour(dt: DateTime): (r: Option<DateTime>)
    requires ValidDateTime(dt)
    ensures r.None? <==> dt.date == LAST_HOUR.date && dt.time.hour == 23
    ensures r.Some? ==> ValidDateTime(r.value) && r.value.time.minute == dt.time.minute
  {
    if dt.time.hour < 23 then
      Some(DateTime(dt.date, TimeOfDay(dt.time.hour + 1, dt.time.minute)))
    else
      match NextDate(dt.date)
      case None => None
      case Some(next) => Some(DateTime(next, TimeOfDay(0, dt.time.minute)))
  }

  /** A step that stays in the calendar moves exactly 60 minutes on. */
  lemma AddHourIsHourLater(dt: DateTime)
    requires ValidDateTime(dt) && AddHour(dt).Some?
    ensures Instant(AddHour(dt).value) == Instant(dt) + 60
  {
    if dt.time.hour == 23 {
      NextDateIsNextDay(dt.date);
    }
  }

  /** 23:59 of 31-12-9999, the last minute a Python `datetime` can hold, as
   *  an instant (`date.max.toordinal()` is 3652059). */
  const LAST_MINUTE: int := 3652059 * 1440 + 23 * 60 + 59

  /** Adding 60 minutes overflows exactly when the result would pass the
   *  last minute: these are the starts, from 23:00 of 31-12-9999 on, at
   *  which AddHour has no result. */
  lemma HourLaterPassesEnd(dt: DateTime)
    requires ValidDateTime(dt)
    ensures Instant(dt) + 60 > LAST_MINUTE <==> AddHour(dt).None?
  {
    var last := Date(31, 12, MAX_YEAR);
    DaysBeforeYearClosedForm(MAX_YEAR);
    assert Ordinal(last) == 3652059;
    OrdinalOrder(dt.date, last);
  }

  // ---------------------------------------------------------------------------
  // The canonical text: strftime("%d-%m-%Y") / strftime("%H:%M") and the
  // strict reading of strptime with the same formats
  // ---------------------------------------------------------------------------

  predicate IsDigit(c: char) {
    '0' <= c <= '9'
  }

  predicate AllDigits(s: string) {
    forall i :: 0 <= i < |s| ==> IsDigit(s[i])
  }

  function DigitValue(c: char): int
    requires IsDigit(c)
  {
    c as int - '0' as int
  }

  function DigitChar(n: int): char
    requires 0 <= n <= 9
  {
    ('0' as int + n) as char
  }

  /** Two decimal digits, zero-padded. */
  function Pad2(n: int): string
    requires 0 <= n < 100
  {
    [DigitChar(n / 10), DigitChar(n % 10)]
  }

  /** Four decimal digits, zero-padded. */
  function Pad4(n: int): string
    requires 0 <= n < 10000
  {
    Pad2(n / 100) + Pad2(n % 100)
  }

  function Number2(s: string): int
    requires |s| == 2 && AllDigits(s)
  {
    10 * DigitValue(s[0]) + DigitValue(s[1])
  }

  function Number4(s: string): int
    requires |s| == 4 && AllDigits(s)
  {
    100 * Number2(s[..2]) + Number2(s[2..])
  }

  function FormatDate(d: Date): string
    requires ValidDate(d)
  {
    Pad2(d.day) + "-" + Pad2(d.month) + "-" + Pad4(d.year)
  }

  function FormatTime(t: TimeOfDay): string
    requires ValidTime(t)
  {
    Pad2(t.hour) + ":" + Pad2(t.minute)
  }

  lemma Pad2Number2(s: string)
    requires |s| == 2 && AllDigits(s)
    ensures Pad2(Number2(s)) == s
  {
  }

  /** Splitting 100 * hi + lo into its hundreds and its rest. */
  lemma HundredsSplit(hi: int, lo: int)
    requires 0 <= lo < 100
    ensures (100 * hi + lo) / 100 == hi && (100 * hi + lo) % 100 == lo
  {
  }

  lemma Pad4Number4(s: string)
    requires |s| == 4 && AllDigits(s)
    ensures Pad4(Number4(s)) == s
  {
    var hi, lo := s[..2], s[2..];
    Pad2Number2(hi);
    Pad2Number2(lo);
    HundredsSplit(Number2(hi), Number2(lo));
    assert Pad4(Number4(s)) == Pad2(Number2(hi)) + Pad2(Number2(lo));
    assert s == hi + lo;
  }

  lemma Number2Pad2(n: int)
    requires 0 <= n < 100
    ensures AllDigits(Pad2(n)) && Number2(Pad2(n)) == n
  {
  }

  lemma Number4Pad4(n: int)
    requires 0 <= n < 10000
    ensures AllDigits(Pad4(n)) && Number4(Pad4(n)) == n
  {
    Number2Pad2(n / 100);
    Number2Pad2(n % 100);
    var s := Pad4(n);
    assert s[..2] == Pad2(n / 100);
    assert s[2..] == Pad2(n % 100);
  }

  /** `strptime(s, "%d-%m-%Y")`, strictly: two-digit day and month and a
   *  four-digit year, separated by dashes, forming a valid date. */
  function ParseDate(s: string): (r: Option<Date>)
    ensures r.Some? ==> ValidDate(r.value)
  {
    if |s| == 10 && s[2] == '-' && s[5] == '-'
       && AllDigits(s[..2]) && AllDigits(s[3..5]) && AllDigits(s[6..])
    then
      var d := Date(Number2(s[..2]), Number2(s[3..5]), Number4(s[6..]));
      if ValidDate(d) then Some(d) else None
    else
      None
  }

  /** `strptime(s, "%H:%M")`, strictly: two-digit hour and minute separated
   *  by a colon, forming a valid time of day. */
  function ParseTime(s: string): (r: Option<TimeOfDay>)
    ensures r.Some? ==> ValidTime(r.value)
  {
    if |s| == 5 && s[2] == ':' && AllDigits(s[..2]) && AllDigits(s[3..]) then
      var t := TimeOfDay(Number2(s[..2]), Number2(s[3..]));
      if ValidTime(t) then Some(t) else None
    else
      None
  }

  /** The text a date parses from is the canonical spelling of that date. */
  lemma ParsedDateIsCanonical(s: string)
    requires ParseDate(s).Some?
    ensures FormatDate(ParseDate(s).value) == s
  {
    Pad2Number2(s[..2]);
    Pad2Number2(s[3..5]);
    Pad4Number4(s[6..]);
    assert s == s[..2] + "-" + s[3..5] + "-" + s[6..];
  }

  /** The text a time parses from is the canonical spelling of that time. */
  lemma ParsedTimeIsCanonical(s: string)
    requires ParseTime(s).Some?
    ensures FormatTime(ParseTime(s).value) == s
  {
    Pad2Number2(s[..2]);
    Pad2Number2(s[3..]);
    assert s == s[..2] + ":" + s[3..];
  }

  /** Formatting then parsing gives the date back. */
  lemma {:induction false} DateRoundTrip(d: Date)
    requires ValidDate(d)
    ensures ParseDate(FormatDate(d)) == Some(d)
  {
    var s := FormatDate(d);
    Number2Pad2(d.day);
    Number2Pad2(d.month);
    Number4Pad4(d.year);
    assert s[..2] == Pad2(d.day);
    assert s[3..5] == Pad2(d.month);
    assert s[6..] == Pad4(d.year);
  }

  /** Formatting then parsing gives the time of day back. */
  lemma {:induction false} TimeRoundTrip(t: TimeOfDay)
    requires ValidTime(t)
    ensures ParseTime(FormatTime(t)) == Some(t)
  {
    var s := FormatTime(t);
    Number2Pad2(t.hour);
    Number2Pad2(t.minute);
    assert s[..2] == Pad2(t.hour);
    assert s[3..] == Pad2(t.minute);
  }

  /** The parsers and the formatters are inverse bijections between valid
   *  values and canonical text. */
  lemma ParseDateIff(s: string, d: Date)
    ensures ParseDate(s) == Some(d) <==> ValidDate(d) && s == FormatDate(d)
  {
    if ValidDate(d) && s == FormatDate(d) {
      DateRoundTrip(d);
    }
    if ParseDate(s) == Some(d) {
      ParsedDateIsCanonical(s);
    }
  }

  lemma ParseTimeIff(s: string, t: TimeOfDay)
    ensures ParseTime(s) == Some(t) <==> ValidTime(t) && s == FormatTime(t)
  {
    if ValidTime(t) && s == FormatTime(t) {
      TimeRoundTrip(t);
    }
    if ParseTime(s) == Some(t) {
      ParsedTimeIsCanonical(s);
    }
  }

  // ---------------------------------------------------------------------------
  // The combined stamp "DD-MM-YYYY HH:MM" that the conflict check parses
  // ---------------------------------------------------------------------------

  /** `strptime(s, "%d-%m-%Y %H:%M")`, strictly. */
  function ParseStamp(s: string): (r: Option<DateTime>) {
    if |s| == 16 && s[10] == ' ' then
      match (ParseDate(s[..10]), ParseTime(s[11..]))
      case (Some(d), Some(t)) => Some(DateTime(d, t))
      case _ => None
    else
      None
  }

  /** A space anywhere in the text stops it from parsing as a date. */
  lemma SpaceFailsDate(s: string, k: int)
    requires 0 <= k < |s| && s[k] == ' '
    ensures ParseDate(s).None?
  {
  }

  /** A space anywhere in the text stops it from parsing as a time. */
  lemma SpaceFailsTime(s: string, k: int)
    requires 0 <= k < |s| && s[k] == ' '
    ensures ParseTime(s).None?
  {
  }

  /** Parsing `date + " " + time` as one stamp succeeds exactly when the
   *  date and the time parse on their own, and gives the same values. */
  lemma {:induction false} StampOfFields(date: string, time: string)
    ensures ParseStamp(date + " " + time) ==
      match (ParseDate(date), ParseTime(time))
      case (Some(d), Some(t)) => Some(DateTime(d, t))
      case _ => None
  {
    var s := date + " " + time;
    if |date| == 10 {
      assert s[..10] == date;
      assert s[10] == ' ';
      assert s[11..] == time;
    } else if |s| == 16 && s[10] == ' ' {
      if |date| < 10 {
        assert s[..10][|date|] == ' ';
        SpaceFailsDate(s[..10], |date|);
      } else {
        assert s[11..][|date| - 11] == ' ';
        SpaceFailsTime(s[11..], |date| - 11);
      }
    }
  }
}
