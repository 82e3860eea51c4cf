/**
 * SQL timestamps and the calendar arithmetic the pipeline does with them: the
 * `{year}-{month:02d}-01 00:00:00` .. `{y}-{m:02d}-{days} 23:59:59` windows, the
 * `(date(y, m + 1, 1) - timedelta(days=1)).day` last-day computation,
 * `extract(year/month from ...)` and `date_diff('day', a, b)`.
 * A timestamp is kept as its calendar fields and ordered by `Ordinal`, the number of
 * seconds since 0001-01-01 00:00:00 (proleptic Gregorian calendar).
 */
module Timestamps {
  import opened Wrappers

  datatype DateTime = DateTime(year: int, month: int, day: int, hour: int, minute: int, second: int)

  predicate IsLeapYear(y: int)
  {
    y % 4 == 0 && (y % 100 != 0 || y % 400 == 0)
  }

  function DaysInMonth(y: int, m: int): (d: int)
    requires 1 <= m <= 12
    ensures 28 <= d <= 31
    ensures d == 29 <==> m == 2 && IsLeapYear(y)
  {
    if m == 2 then (if IsLeapYear(y) then 29 else 28)
    else if m == 4 || m == 6 || m == 9 || m == 11 then 30
    else 31
  }

  predicate ValidDateTime(t: DateTime)
  {
    && 1 <= t.month <= 12
    && 1 <= t.day <= DaysInMonth(t.year, t.month)
    && 0 <= t.hour < 24 && 0 <= t.minute < 60 && 0 <= t.second < 60
  }

  /** A value a SQL `timestamp` column can hold. */
  type Timestamp = t: DateTime | ValidDateTime(t) witness DateTime(2021, 1, 1, 0, 0, 0)

  /** Casting the text `{y}-{m:02d}-{d:02d} {h}:{mi}:{s}` to a timestamp. */
  function CastTimestamp(t: DateTime): (r: Result<Timestamp>)
    ensures r.Ok? <==> ValidDateTime(t)
    ensures r.Ok? ==> r.value == t
  {
    if ValidDateTime(t) then
      var ts: Timestamp := t;
      Ok(ts)
    else Err("Conversion Error: invalid timestamp field format")
  }

  // ---------------------------------------------------------------------------
  // Day numbers and ordinals
  // ---------------------------------------------------------------------------

  function DaysBeforeYear(y: int): int
  {
    var p := y - 1;
    365 * p + p / 4 - p / 100 + p / 400
  }

  function DaysBeforeMonth(y: int, m: int): int
    requires 1 <= m <= 12
  {
    if m == 1 then 0 else DaysBeforeMonth(y, m - 1) + DaysInMonth(y, m - 1)
  }

  /** The day count of a calendar date; 0001-01-01 is day 1, as in Python's `date.toordinal()`. */
  function DayNumber(y: int, m: int, d: int): int
    requires 1 <= m <= 12
  {
    DaysBeforeYear(y) + DaysBeforeMonth(y, m) + d
  }

  /** Seconds since 0001-01-01 00:00:00: the order SQL compares timestamps in. */
  function Ordinal(t: Timestamp): int
  {
    (DayNumber(t.year, t.month, t.day) - 1) * 86400 + t.hour * 3600 + t.minute * 60 + t.second
  }

  /** SQL `t between lo and hi`; a NULL timestamp is never between anything. */
  predicate InWindow(t: Option<Timestamp>, lo: Timestamp, hi: Timestamp)
  {
    t.Some? && Ordinal(lo) <= Ordinal(t.value) <= Ordinal(hi)
  }

  /** DuckDB `date_diff('day', a, b)`: calendar days from `a`'s date to `b`'s, times ignored. */
  function DayDiff(a: Timestamp, b: Timestamp): int
  {
    DayNumber(b.year, b.month, b.day) - DayNumber(a.year, a.month, a.day)
  }

  // ---------------------------------------------------------------------------
  // Month windows
  // ---------------------------------------------------------------------------

  /** `{y}-{m:02d}-01 00:00:00`. */
  function MonthStart(y: int, m: int): (t: Timestamp)
    requires 1 <= m <= 12
    ensures t.year == y && t.month == m
  {
    DateTime(y, m, 1, 0, 0, 0)
  }

  /** `{y}-{m:02d}-{DaysInMonth} 23:59:59`. */
  function MonthEnd(y: int, m: int): (t: Timestamp)
    requires 1 <= m <= 12
    ensures t.year == y && t.month == m
  {
    DateTime(y, m, DaysInMonth(y, m), 23, 59, 59)
  }

  /**
   * Python `date(y, m, 1)`, then one day back, then `.day`. `date` raises for a month
   * outside 1..12 or a year outside 1..9999; stepping back from 0001-01-01 overflows.
   */
  function DayBeforeFirstOf(y: int, m: int): (r: Result<int>)
    ensures r.Ok? <==> 1 <= m <= 12 && 1 <= y <= 9999 && (m > 1 || y > 1)
    ensures r.Ok? && m > 1 ==> r.value == DaysInMonth(y, m - 1)
    ensures r.Ok? && m == 1 ==> r.value == 31
  {
    if !(1 <= m <= 12) then Err("ValueError: month must be in 1..12")
    else if !(1 <= y <= 9999) then Err("ValueError: year " + "is out of range")
    else if m > 1 then Ok(DaysInMonth(y, m - 1))
    else if y > 1 then Ok(31)
    else Err("OverflowError: date value out of range")
  }

  /**
   * The source's last-day-of-month: `(date(y, m + 1, 1) - timedelta(days=1)).day`.
   * It is the month's length for January to November and raises for December.
   */
  function LastDayOfMonthAsWritten(y: int, m: int): (r: Result<int>)
    requires 1 <= m <= 12
    ensures m == 12 ==> r.Err?
    ensures m < 12 && 1 <= y <= 9999 ==> r == Ok(DaysInMonth(y, m))
    ensures r.Ok? ==> m < 12 && 1 <= y <= 9999
  {
    DayBeforeFirstOf(y, m + 1)
  }

  /** Months numbered consecutively: December of year y is followed by January of y + 1. */
  function MonthIndex(y: int, m: int): int
  {
    12 * y + m - 1
  }

  function YearOfIndex(k: int): int { k / 12 }
  function MonthOfIndex(k: int): int { k % 12 + 1 }

  lemma IndexRoundTrip(y: int, m: int)
    requires 1 <= m <= 12
    ensures YearOfIndex(MonthIndex(y, m)) == y && MonthOfIndex(MonthIndex(y, m)) == m
  {
  }

  /** The first second of month number k. */
  function StartOfIndex(k: int): int
  {
    Ordinal(MonthStart(YearOfIndex(k), MonthOfIndex(k)))
  }

  lemma DivSteps(p: int)
    ensures (p + 1) / 4 - p / 4 == if (p + 1) % 4 == 0 then 1 else 0
    ensures (p + 1) / 100 - p / 100 == if (p + 1) % 100 == 0 then 1 else 0
    ensures (p + 1) / 400 - p / 400 == if (p + 1) % 400 == 0 then 1 else 0
  {
  }

  /** A year has 365 days, 366 when it is a leap year. */
  lemma YearLength(y: int)
    ensures DaysBeforeYear(y + 1) - DaysBeforeYear(y) == if IsLeapYear(y) then 366 else 365
  {
    var p := y - 1;
    DivSteps(p);
    var d4, d100, d400 := y / 4 - p / 4, y / 100 - p / 100, y / 400 - p / 400;
    assert DaysBeforeYear(y + 1) - DaysBeforeYear(y) == 365 + d4 - d100 + d400;
    LeapSteps(y, d4, d100, d400);
  }

  /** The leap-year rule read off the steps of `y / 4`, `y / 100` and `y / 400`. */
  lemma LeapSteps(y: int, d4: int, d100: int, d400: int)
    requires d4 == (if y % 4 == 0 then 1 else 0)
    requires d100 == (if y % 100 == 0 then 1 else 0)
    requires d400 == (if y % 400 == 0 then 1 else 0)
    ensures d4 - d100 + d400 == if IsLeapYear(y) then 1 else 0
  {
    if y % 100 == 0 {
      HundredsAreFours(y);
      if y % 400 == 0 {
        FourHundredsAreHundreds(y);
      }
    }
  }

  lemma HundredsAreFours(y: int)
    requires y % 100 == 0
    ensures y % 4 == 0
  {
    assert y == 4 * (25 * (y / 100));
  }

  lemma FourHundredsAreHundreds(y: int)
    requires y % 400 == 0
    ensures y % 100 == 0
  {
    assert y == 100 * (4 * (y / 400));
  }

  lemma DaysBeforeDecember(y: int)
    ensures DaysBeforeMonth(y, 12) == if IsLeapYear(y) then 335 else 334
  {
    var f := if IsLeapYear(y) then 1 else 0;
    assert DaysBeforeMonth(y, 2) == 31;
    assert DaysBeforeMonth(y, 3) == 59 + f;
    assert DaysBeforeMonth(y, 4) == 90 + f;
    assert DaysBeforeMonth(y, 5) == 120 + f;
    assert DaysBeforeMonth(y, 6) == 151 + f;
    assert DaysBeforeMonth(y, 7) == 181 + f;
    assert DaysBeforeMonth(y, 8) == 212 + f;
    assert DaysBeforeMonth(y, 9) == 243 + f;
    assert DaysBeforeMonth(y, 10) == 273 + f;
    assert DaysBeforeMonth(y, 11) == 304 + f;
  }

  /** The first day of the next month follows the last day of this one. */
  lemma {:induction false} NextMonthFirstDay(y: int, m: int)
    requires 1 <= m <= 12
    ensures var k := MonthIndex(y, m) + 1;
      DayNumber(YearOfIndex(k), MonthOfIndex(k), 1) == DayNumber(y, m, DaysInMonth(y, m)) + 1
  {
    var k := MonthIndex(y, m) + 1;
    if m < 12 {
      assert YearOfIndex(k) == y && MonthOfIndex(k) == m + 1;
    } else {
      assert YearOfIndex(k) == y + 1 && MonthOfIndex(k) == 1;
      YearLength(y);
      DaysBeforeDecember(y);
    }
  }

  /** Every timestamp of month k lies between the first second of k and that of k + 1. */
  lemma {:induction false} WithinItsMonth(t: Timestamp)
    ensures var k := MonthIndex(t.year, t.month);
      StartOfIndex(k) <= Ordinal(t) < StartOfIndex(k + 1)
  {
    IndexRoundTrip(t.year, t.month);
    NextMonthFirstDay(t.year, t.month);
  }

  /** The last second of a month is one second before the first second of the next. */
  lemma {:induction false} MonthEndOrdinal(y: int, m: int)
    requires 1 <= m <= 12
    ensures Ordinal(MonthEnd(y, m)) == StartOfIndex(MonthIndex(y, m) + 1) - 1
  {
    IndexRoundTrip(y, m);
    NextMonthFirstDay(y, m);
  }

  /** Month starts grow strictly from one month to the next. */
  lemma {:induction false} StartStrictlyIncreasing(k: int)
    ensures StartOfIndex(k) < StartOfIndex(k + 1)
  {
    var y, m := YearOfIndex(k), MonthOfIndex(k);
    assert MonthIndex(y, m) == k;
    WithinItsMonth(MonthStart(y, m));
  }

  lemma {:induction false} StartMonotone(a: int, b: int)
    requires a <= b
    ensures StartOfIndex(a) <= StartOfIndex(b)
    decreases b - a
  {
    if a < b {
      StartMonotone(a, b - 1);
      StartStrictlyIncreasing(b - 1);
    }
  }

  /**
   * The window from the first second of month (y1, m1) to the last second of month
   * (y2, m2) holds exactly the timestamps whose month lies in that range.
   */
  lemma WindowIsWholeMonths(y1: int, m1: int, y2: int, m2: int, t: Timestamp)
    requires 1 <= m1 <= 12 && 1 <= m2 <= 12
    ensures InWindow(Some(t), MonthStart(y1, m1), MonthEnd(y2, m2))
        <==> MonthIndex(y1, m1) <= MonthIndex(t.year, t.month) <= MonthIndex(y2, m2)
  {
    AfterMonthStart(y1, m1, t);
    BeforeMonthEnd(y2, m2, t);
  }

  lemma AfterMonthStart(y: int, m: int, t: Timestamp)
    requires 1 <= m <= 12
    ensures Ordinal(MonthStart(y, m)) <= Ordinal(t) <==> MonthIndex(y, m) <= MonthIndex(t.year, t.month)
  {
    IndexRoundTrip(y, m);
    AtOrAfterStart(MonthIndex(y, m), t);
  }

  lemma BeforeMonthEnd(y: int, m: int, t: Timestamp)
    requires 1 <= m <= 12
    ensures Ordinal(t) <= Ordinal(MonthEnd(y, m)) <==> MonthIndex(t.year, t.month) <= MonthIndex(y, m)
  {
    MonthEndOrdinal(y, m);
    AtOrAfterStart(MonthIndex(y, m) + 1, t);
  }

  /** A timestamp is at or after the first second of month k exactly when its own month is k or later. */
  lemma AtOrAfterStart(k: int, t: Timestamp)
    ensures StartOfIndex(k) <= Ordinal(t) <==> k <= MonthIndex(t.year, t.month)
  {
    var kt := MonthIndex(t.year, t.month);
    WithinItsMonth(t);
    StartOrder(kt, k);
    Bracketed(Ordinal(t), StartOfIndex(kt), StartOfIndex(kt + 1), StartOfIndex(k), kt, k);
  }

  /** Where the start of month k falls relative to month kt. */
  lemma StartOrder(kt: int, k: int)
    ensures k <= kt ==> StartOfIndex(k) <= StartOfIndex(kt)
    ensures kt < k ==> StartOfIndex(kt + 1) <= StartOfIndex(k)
  {
    if k <= kt {
      StartMonotone(k, kt);
    } else {
      StartMonotone(kt + 1, k);
    }
  }

  /**
   * A point of month kt compared with the start of month k: it is at or after that
   * start exactly when kt is at least k. Stated on plain integers.
   */
  lemma Bracketed(o: int, lo: int, hi: int, start: int, kt: int, k: int)
    requires lo <= o < hi
    requires k <= kt ==> start <= lo
    requires kt < k ==> hi <= start
    ensures start <= o <==> k <= kt
  {
  }

  /**
   * `date_diff('day', a, b)` is negative exactly when b's calendar date comes
   * before a's, and zero exactly on the same date.
   */
  lemma DayDiffSign(a: Timestamp, b: Timestamp)
    ensures DayDiff(a, b) < 0 <==> DateBefore(b, a)
    ensures DayDiff(a, b) == 0 <==> (a.year, a.month, a.day) == (b.year, b.month, b.day)
  {
    DateOrder(a, b);
    DateOrder(b, a);
  }

  /** Calendar dates in lexicographic order. */
  predicate DateBefore(a: Timestamp, b: Timestamp)
  {
    a.year < b.year || (a.year == b.year && (a.month < b.month || (a.month == b.month && a.day < b.day)))
  }

  lemma {:induction false} DateOrder(a: Timestamp, b: Timestamp)
    ensures DateBefore(a, b) ==> DayNumber(a.year, a.month, a.day) < DayNumber(b.year, b.month, b.day)
  {
    var ka, kb := MonthIndex(a.year, a.month), MonthIndex(b.year, b.month);
    if DateBefore(a, b) && ka < kb {
      NextMonthFirstDay(a.year, a.month);
      assert FirstDayOfIndex(ka + 1) == DayNumber(a.year, a.month, DaysInMonth(a.year, a.month)) + 1;
      FirstDayMonotone(ka + 1, kb);
      IndexRoundTrip(b.year, b.month);
      assert FirstDayOfIndex(kb) == DayNumber(b.year, b.month, 1);
    }
  }

  /** The day number of the first day of month number k. */
  function FirstDayOfIndex(k: int): int
  {
    DayNumber(YearOfIndex(k), MonthOfIndex(k), 1)
  }

  lemma {:induction false} FirstDayMonotone(a: int, b: int)
    requires a <= b
    ensures FirstDayOfIndex(a) <= FirstDayOfIndex(b)
    decreases b - a
  {
    if a < b {
      FirstDayMonotone(a, b - 1);
      var y, m := YearOfIndex(b - 1), MonthOfIndex(b - 1);
      assert MonthIndex(y, m) == b - 1;
      NextMonthFirstDay(y, m);
    }
  }
}
