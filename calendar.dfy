/** The proleptic Gregorian calendar that Python's `date` and pandas'
    timestamps use: leap years, month lengths, the day ordinal (day 1 is
    0001-01-01, as `date.toordinal`), the successor of a day (`day +
    timedelta(days=1)`) and the date of an ordinal (`date.fromordinal`).
    The arithmetic holds for every year number; the range 1..9999 that
    Python's `date` admits is checked by its callers. */
module Calendar {

  datatype Date = Date(year: int, month: int, day: int)

  predicate IsLeapYear(y: int)
  {
    y % 4 == 0 && (y % 100 != 0 || y % 400 == 0)
  }

  function YearLength(y: int): int
  {
    if IsLeapYear(y) then 366 else 365
  }

  function DaysInMonth(y: int, m: int): (n: int)
    requires 1 <= m <= 12
    ensures 28 <= n <= 31
  {
    if m == 2 then (if IsLeapYear(y) then 29 else 28)
    else if m == 4 || m == 6 || m == 9 || m == 11 then 30
    else 31
  }

  predicate ValidDate(d: Date)
  {
    1 <= d.month <= 12 && 1 <= d.day <= DaysInMonth(d.year, d.month)
  }

  /** Days of year y before the first of month m (m = 13 gives the whole year). */
  function DaysBeforeMonth(y: int, m: int): int
    requires 1 <= m <= 13
  {
    if m == 1 then 0 else DaysBeforeMonth(y, m - 1) + DaysInMonth(y, m - 1)
  }

  /** Days before the first of January of year y, counted from 0001-01-01. */
  function DaysBeforeYear(y: int): int
  {
    var p := y - 1;
    p * 365 + p / 4 - p / 100 + p / 400
  }

  /** The day number of a date; 0001-01-01 is day 1. */
  function Ordinal(d: Date): int
    requires ValidDate(d)
  {
    DaysBeforeYear(d.year) + DaysBeforeMonth(d.year, d.month) + d.day
  }

  /** Day of the week, Monday = 0 ... Sunday = 6 (0001-01-01 was a Monday). */
  function Weekday(d: Date): (w: int)
    requires ValidDate(d)
    ensures 0 <= w < 7
  {
    (Ordinal(d) + 6) % 7
  }

  /** The calendar day after d, rolling over the month and the year. */
  function NextDay(d: Date): (n: Date)
    requires ValidDate(d)
    ensures ValidDate(n)
  {
    if d.day < DaysInMonth(d.year, d.month) then Date(d.year, d.month, d.day + 1)
    else if d.month < 12 then Date(d.year, d.month + 1, 1)
    else Date(d.year + 1, 1, 1)
  }

  /** Chronological order of dates, as Python compares them. */
  predicate Before(a: Date, b: Date)
  {
    a.year < b.year || (a.year == b.year && (a.month < b.month || (a.month == b.month && a.day < b.day)))
  }

  lemma {:induction false} MonthsFillYear(y: int)
    ensures DaysBeforeMonth(y, 13) == YearLength(y)
    ensures DaysBeforeMonth(y, 12) + 31 == YearLength(y)
  {
    var feb := DaysInMonth(y, 2);
    assert DaysBeforeMonth(y, 2) == 31;
    assert DaysBeforeMonth(y, 3) == 31 + feb;
    assert DaysBeforeMonth(y, 4) == 62 + feb;
    assert DaysBeforeMonth(y, 5) == 92 + feb;
    assert DaysBeforeMonth(y, 6) == 123 + feb;
    assert DaysBeforeMonth(y, 7) == 153 + feb;
    assert DaysBeforeMonth(y, 8) == 184 + feb;
    assert DaysBeforeMonth(y, 9) == 215 + feb;
    assert DaysBeforeMonth(y, 10) == 245 + feb;
    assert DaysBeforeMonth(y, 11) == 276 + feb;
    assert DaysBeforeMonth(y, 12) == 306 + feb;
    assert DaysBeforeMonth(y, 13) == 337 + feb;
  }

  lemma {:induction false} DivisionStep(a: int)
    ensures a / 4 - (a - 1) / 4 == (if a % 4 == 0 then 1 else 0)
    ensures a / 100 - (a - 1) / 100 == (if a % 100 == 0 then 1 else 0)
    ensures a / 400 - (a - 1) / 400 == (if a % 400 == 0 then 1 else 0)
  {
  }

  /** Consecutive years are YearLength apart. */
  lemma {:induction false} YearStep(y: int)
    ensures DaysBeforeYear(y + 1) == DaysBeforeYear(y) + YearLength(y)
  {
    DivisionStep(y);
  }

  /** The successor of a day has the next ordinal. */
  lemma {:induction false} NextDayOrdinal(d: Date)
    requires ValidDate(d)
    ensures Ordinal(NextDay(d)) == Ordinal(d) + 1
    ensures Before(d, NextDay(d))
  {
    if d.day == DaysInMonth(d.year, d.month) && d.month == 12 {
      YearStep(d.year);
      MonthsFillYear(d.year);
    }
  }

  lemma {:induction false} DaysBeforeMonthBounds(y: int, m: int)
    requires 1 <= m <= 12
    ensures DaysBeforeMonth(y, m) + DaysInMonth(y, m) <= YearLength(y)
  {
    MonthsFillYear(y);
    if m < 12 {
      DaysBeforeMonthIncreasing(y, m + 1, 13);
    }
  }

  lemma {:induction false} DaysBeforeMonthIncreasing(y: int, m: int, n: int)
    requires 1 <= m <= n <= 13
    ensures DaysBeforeMonth(y, m) <= DaysBeforeMonth(y, n)
    ensures m < n ==> DaysBeforeMonth(y, m) + DaysInMonth(y, m) <= DaysBeforeMonth(y, n)
    decreases n - m
  {
    if m < n {
      DaysBeforeMonthIncreasing(y, m, n - 1);
    }
  }

  /** The date whose day of year y is doy, found month by month. */
  function MonthSearch(y: int, m: int, rem: int): (d: Date)
    requires 1 <= m <= 12 && 1 <= rem
    requires DaysBeforeMonth(y, m) + rem <= YearLength(y)
    ensures ValidDate(d) && d.year == y
    ensures DaysBeforeMonth(y, d.month) + d.day == DaysBeforeMonth(y, m) + rem
    decreases 12 - m
  {
    MonthsFillYear(y);
    if rem <= DaysInMonth(y, m) then Date(y, m, rem)
    else MonthSearch(y, m + 1, rem - DaysInMonth(y, m))
  }

  /** The year holding the day that lies rem days into year y (rem >= 1),
      searching forward, with the day's position in that year. */
  function YearSearchForward(y: int, rem: int): (r: (int, int))
    requires rem >= 1
    ensures 1 <= r.1 <= YearLength(r.0)
    ensures DaysBeforeYear(r.0) + r.1 == DaysBeforeYear(y) + rem
    decreases rem
  {
    YearStep(y);
    if rem <= YearLength(y) then (y, rem)
    else YearSearchForward(y + 1, rem - YearLength(y))
  }

  /** As YearSearchForward, for a day on or before the last day of year y - 1
      (rem <= 0), searching backward. */
  function YearSearchBackward(y: int, rem: int): (r: (int, int))
    requires rem <= 0
    ensures 1 <= r.1 <= YearLength(r.0)
    ensures DaysBeforeYear(r.0) + r.1 == DaysBeforeYear(y) + rem
    decreases -rem
  {
    YearStep(y - 1);
    var r := rem + YearLength(y - 1);
    if r >= 1 then (y - 1, r) else YearSearchBackward(y - 1, r)
  }

  /** The date of a day number (`date.fromordinal`). */
  function FromOrdinal(o: int): (d: Date)
    ensures ValidDate(d) && Ordinal(d) == o
  {
    var r := if o >= 1 then YearSearchForward(1, o) else YearSearchBackward(1, o);
    MonthSearch(r.0, 1, r.1)
  }

  /** A date lies after every day of the years before it and no later than
      the last day of its own year. */
  lemma {:induction false} OrdinalWithinYear(d: Date)
    requires ValidDate(d)
    ensures DaysBeforeYear(d.year) < Ordinal(d) <= DaysBeforeYear(d.year + 1)
  {
    DaysBeforeMonthBounds(d.year, d.month);
    DaysBeforeMonthIncreasing(d.year, 1, d.month);
    YearStep(d.year);
  }

  lemma {:induction false} DaysBeforeYearIncreasing(a: int, b: int)
    requires a <= b
    ensures DaysBeforeYear(a) <= DaysBeforeYear(b)
    decreases b - a
  {
    if a < b {
      DaysBeforeYearIncreasing(a, b - 1);
      YearStep(b - 1);
    }
  }

  /** Distinct valid dates have distinct ordinals. */
  lemma {:induction false} OrdinalInjective(d1: Date, d2: Date)
    requires ValidDate(d1) && ValidDate(d2) && Ordinal(d1) == Ordinal(d2)
    ensures d1 == d2
  {
    OrdinalWithinYear(d1);
    OrdinalWithinYear(d2);
    if d1.year < d2.year {
      DaysBeforeYearIncreasing(d1.year + 1, d2.year);
      assert false;
    } else if d2.year < d1.year {
      DaysBeforeYearIncreasing(d2.year + 1, d1.year);
      assert false;
    }
    if d1.month < d2.month {
      DaysBeforeMonthIncreasing(d1.year, d1.month, d2.month);
      assert false;
    } else if d2.month < d1.month {
      DaysBeforeMonthIncreasing(d1.year, d2.month, d1.month);
      assert false;
    }
  }

  /** FromOrdinal inverts Ordinal. */
  lemma {:induction false} FromOrdinalOfOrdinal(d: Date)
    requires ValidDate(d)
    ensures FromOrdinal(Ordinal(d)) == d
  {
    OrdinalInjective(FromOrdinal(Ordinal(d)), d);
  }

  /** Chronological order is the order of the ordinals. */
  lemma {:induction false} BeforeIffOrdinalLess(a: Date, b: Date)
    requires ValidDate(a) && ValidDate(b)
    ensures Before(a, b) <==> Ordinal(a) < Ordinal(b)
  {
    OrdinalWithinYear(a);
    OrdinalWithinYear(b);
    if a.year < b.year {
      DaysBeforeYearIncreasing(a.year + 1, b.year);
    } else if b.year < a.year {
      DaysBeforeYearIncreasing(b.year + 1, a.year);
    } else if a.month < b.month {
      DaysBeforeMonthIncreasing(a.year, a.month, b.month);
    } else if b.month < a.month {
      DaysBeforeMonthIncreasing(a.year, b.month, a.month);
    }
  }

  /** The ordinal of 1970-01-01, the origin of the hour counts. */
  const EpochOrdinal: int := 719163

  lemma {:induction false} EpochOrdinalIsJanuaryFirst1970()
    ensures Ordinal(Date(1970, 1, 1)) == EpochOrdinal
    ensures Weekday(Date(1970, 1, 1)) == 3
  {
  }
}
