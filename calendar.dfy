// Gregorian calendar arithmetic: leap years, month lengths, and the conversion between
// calendar dates and epoch seconds (whole days since 1970-01-01 times 86400).
module Calendar {

  const SecondsPerDay: nat := 86400
  const EpochYear: nat := 1970

  /** The Gregorian rule: every fourth year, except centuries, except every fourth century. */
  function IsLeapYear(year: nat): (leap: bool)
    ensures year % 4 != 0 ==> !leap
    ensures year % 4 == 0 && year % 100 != 0 ==> leap
    ensures year % 100 == 0 && year % 400 != 0 ==> !leap
    ensures year % 400 == 0 ==> leap
  {
    assert year % 400 == 0 ==> year % 4 == 0 by {
      if year % 400 == 0 {
        var q := year / 400;
        assert year == 4 * (100 * q);
      }
    }
    year % 4 == 0 && (year % 100 != 0 || year % 400 == 0)
  }

  /** Length of a year in days, as the day-accumulation loops use it. */
  function YearDays(year: nat): (r: nat)
    ensures r == 365 || r == 366
    ensures r == 366 <==> IsLeapYear(year)
  {
    if IsLeapYear(year) then 366 else 365
  }

  /** Any month number outside 2, 4, 6, 9 and 11 falls into the 31-day arm, as in the source's match. */
  function DaysInMonth(year: nat, month: nat): (r: nat)
    ensures 28 <= r <= 31
    ensures month == 2 ==> (r == 29 <==> IsLeapYear(year)) && (r == 28 <==> !IsLeapYear(year))
    ensures month in {4, 6, 9, 11} ==> r == 30
    ensures month != 2 && month !in {4, 6, 9, 11} ==> r == 31
  {
    if month == 4 || month == 6 || month == 9 || month == 11 then 30
    else if month == 2 then (if IsLeapYear(year) then 29 else 28)
    else 31
  }

  /** A calendar date whose month and day are in range for its year. */
  predicate ValidDate(year: nat, month: nat, day: nat) {
    1 <= month <= 12 && 1 <= day <= DaysInMonth(year, month)
  }

  /** Days from 1970-01-01 to the first day of `year`; years before 1970 contribute nothing. */
  function DaysBeforeYear(year: nat): nat
  {
    if year <= EpochYear then 0 else DaysBeforeYear(year - 1) + YearDays(year - 1)
  }

  /** Days from the first of January of `year` to the first day of `month`. */
  function DaysBeforeMonth(year: nat, month: nat): nat
  {
    if month <= 1 then 0 else DaysBeforeMonth(year, month - 1) + DaysInMonth(year, month - 1)
  }

  /** Whole days since the epoch of the given date. */
  function DayNumber(year: nat, month: nat, day: nat): nat
    requires day >= 1
  {
    DaysBeforeYear(year) + DaysBeforeMonth(year, month) + (day - 1)
  }

  /** Epoch seconds of midnight of the given date. */
  function Timestamp(year: nat, month: nat, day: nat): nat
    requires day >= 1
  {
    DayNumber(year, month, day) * SecondsPerDay
  }

  /** Lexicographic (year, month, day) order, the order in which the creation check compares dates. */
  predicate DateBefore(y1: nat, m1: nat, d1: nat, y2: nat, m2: nat, d2: nat) {
    y1 < y2 || (y1 == y2 && (m1 < m2 || (m1 == m2 && d1 < d2)))
  }

  lemma LeapYearTable()
    ensures IsLeapYear(2000) && IsLeapYear(2024)
    ensures !IsLeapYear(1900) && !IsLeapYear(2023) && !IsLeapYear(2100)
  {
  }

  /** The twelve months add up to the length of the year. */
  lemma {:induction false} MonthsFillYear(year: nat)
    ensures DaysBeforeMonth(year, 13) == YearDays(year)
  {
    var feb := DaysInMonth(year, 2);
    assert DaysBeforeMonth(year, 2) == 31;
    assert DaysBeforeMonth(year, 3) == 31 + feb;
    assert DaysBeforeMonth(year, 4) == 31 + feb + 31;
    assert DaysBeforeMonth(year, 5) == 31 + feb + 31 + 30;
    assert DaysBeforeMonth(year, 7) == 31 + feb + 31 + 30 + 31 + 30;
    assert DaysBeforeMonth(year, 9) == 31 + feb + 31 + 30 + 31 + 30 + 31 + 31;
    assert DaysBeforeMonth(year, 11) == 31 + feb + 31 + 30 + 31 + 30 + 31 + 31 + 30 + 31;
    assert DaysBeforeMonth(year, 13) == 31 + feb + 31 + 30 + 31 + 30 + 31 + 31 + 30 + 31 + 30 + 31;
  }

  lemma {:induction false} DaysBeforeMonthMonotone(year: nat, m1: nat, m2: nat)
    requires m1 <= m2
    ensures DaysBeforeMonth(year, m1) <= DaysBeforeMonth(year, m2)
    decreases m2
  {
    if m1 < m2 {
      DaysBeforeMonthMonotone(year, m1, m2 - 1);
    }
  }

  /** A valid date falls strictly inside its year. */
  lemma DayOfYearBound(year: nat, month: nat, day: nat)
    requires ValidDate(year, month, day)
    ensures DaysBeforeMonth(year, month) + (day - 1) < YearDays(year)
  {
    DaysBeforeMonthMonotone(year, month + 1, 13);
    MonthsFillYear(year);
  }

  lemma {:induction false} DaysBeforeYearStep(y1: nat, y2: nat)
    requires EpochYear <= y1 < y2
    ensures DaysBeforeYear(y1) + YearDays(y1) <= DaysBeforeYear(y2)
    decreases y2
  {
    if y1 + 1 < y2 {
      DaysBeforeYearStep(y1, y2 - 1);
    }
  }

  /** Day numbers of valid dates from 1970 on are strictly increasing in calendar order. */
  lemma DayNumberStrictlyIncreasing(y1: nat, m1: nat, d1: nat, y2: nat, m2: nat, d2: nat)
    requires y1 >= EpochYear && ValidDate(y1, m1, d1) && ValidDate(y2, m2, d2)
    requires DateBefore(y1, m1, d1, y2, m2, d2)
    ensures DayNumber(y1, m1, d1) < DayNumber(y2, m2, d2)
  {
    if y1 < y2 {
      DayOfYearBound(y1, m1, d1);
      DaysBeforeYearStep(y1, y2);
    } else if m1 < m2 {
      DaysBeforeMonthMonotone(y1, m1 + 1, m2);
    }
  }

  /** Comparing valid dates in calendar order is the same as comparing their day numbers. */
  lemma DateBeforeIff(y1: nat, m1: nat, d1: nat, y2: nat, m2: nat, d2: nat)
    requires y1 >= EpochYear && y2 >= EpochYear
    requires ValidDate(y1, m1, d1) && ValidDate(y2, m2, d2)
    ensures DateBefore(y1, m1, d1, y2, m2, d2) <==> DayNumber(y1, m1, d1) < DayNumber(y2, m2, d2)
  {
    if DateBefore(y1, m1, d1, y2, m2, d2) {
      DayNumberStrictlyIncreasing(y1, m1, d1, y2, m2, d2);
    } else if DateBefore(y2, m2, d2, y1, m1, d1) {
      DayNumberStrictlyIncreasing(y2, m2, d2, y1, m1, d1);
    }
  }

  /** Timestamps of valid dates are whole days and strictly increase in calendar order. */
  lemma TimestampStrictlyIncreasing(y1: nat, m1: nat, d1: nat, y2: nat, m2: nat, d2: nat)
    requires y1 >= EpochYear && ValidDate(y1, m1, d1) && ValidDate(y2, m2, d2)
    requires DateBefore(y1, m1, d1, y2, m2, d2)
    ensures Timestamp(y1, m1, d1) % SecondsPerDay == 0
    ensures Timestamp(y1, m1, d1) < Timestamp(y2, m2, d2)
  {
    DayNumberStrictlyIncreasing(y1, m1, d1, y2, m2, d2);
  }

  /**
   * Round trip: a decomposition of Timestamp(y, m, d) into a valid date from 1970 on, as
   * CurrentDate produces it, is (y, m, d) itself.
   */
  lemma DecomposeTimestamp(year: nat, month: nat, day: nat, y: nat, m: nat, d: nat)
    requires year >= EpochYear && ValidDate(year, month, day)
    requires y >= EpochYear && ValidDate(y, m, d)
    requires DayNumber(y, m, d) == Timestamp(year, month, day) / SecondsPerDay
    ensures y == year && m == month && d == day
  {
    DateBeforeIff(year, month, day, y, m, d);
    DateBeforeIff(y, m, d, year, month, day);
  }

  /** The day-accumulating loops of date_to_timestamp. */
  method DateToTimestamp(year: nat, month: nat, day: nat) returns (ts: nat)
    requires day >= 1
    ensures ts == Timestamp(year, month, day)
  {
    var days := 0;
    var y := EpochYear;
    while y < year
      invariant EpochYear <= y && (if year >= EpochYear then y <= year else y == EpochYear)
      invariant days == DaysBeforeYear(y)
    {
      days := days + YearDays(y);
      y := y + 1;
    }
    assert year < EpochYear ==> DaysBeforeYear(year) == 0 == days;
    var m := 1;
    while m < month
      invariant if month >= 1 then 1 <= m <= month else m == 1
      invariant days == DaysBeforeYear(year) + DaysBeforeMonth(year, m)
    {
      days := days + DaysInMonth(year, m);
      m := m + 1;
    }
    assert month < 1 ==> DaysBeforeMonth(year, month) == 0 == DaysBeforeMonth(year, m);
    days := days + (day - 1);
    ts := days * SecondsPerDay;
  }

  /**
   * get_current_date with the host clock passed in as `now` (epoch seconds): peel off whole
   * years from 1970, then whole months, and the remainder is the day of the month.
   */
  method CurrentDate(now: nat) returns (year: nat, month: nat, day: nat)
    ensures year >= EpochYear && ValidDate(year, month, day)
    ensures DayNumber(year, month, day) == now / SecondsPerDay
  {
    var daysRemaining: nat := now / SecondsPerDay;
    year := EpochYear;
    while daysRemaining >= YearDays(year)
      invariant year >= EpochYear
      invariant DaysBeforeYear(year) + daysRemaining == now / SecondsPerDay
      decreases daysRemaining
    {
      daysRemaining := daysRemaining - YearDays(year);
      year := year + 1;
    }
    MonthsFillYear(year);
    month := 1;
    while daysRemaining >= DaysInMonth(year, month)
      invariant 1 <= month <= 12
      invariant DaysBeforeYear(year) + DaysBeforeMonth(year, month) + daysRemaining == now / SecondsPerDay
      invariant DaysBeforeMonth(year, month) + daysRemaining < DaysBeforeMonth(year, 13)
      decreases daysRemaining
    {
      daysRemaining := daysRemaining - DaysInMonth(year, month);
      month := month + 1;
    }
    day := daysRemaining + 1;
  }
}
