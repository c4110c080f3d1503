/*
 * The two calendar facts the month-assignment rule reads from
 * `calendar.monthrange`: how many days a month has, and on which weekday
 * (Monday = 0 ... Sunday = 6) it starts. Both follow the proleptic
 * Gregorian calendar, as Python's `calendar` and `datetime` modules do.
 */
module Calendar {

  /** A calendar date as a (year, month, day) triple; see ValidDate. */
  datatype Date = Date(year: int, month: int, day: int)

  /** Gregorian leap years: every fourth year, except centuries not divisible by 400. */
  predicate IsLeapYear(year: int) {
    year % 4 == 0 && (year % 100 != 0 || year % 400 == 0)
  }

  function YearLength(year: int): int {
    if IsLeapYear(year) then 366 else 365
  }

  /** Number of days in a month: `calendar.monthrange(year, month)[1]`. */
  function DaysInMonth(year: int, month: int): (n: int)
    requires 1 <= month <= 12
    ensures 28 <= n <= 31
  {
    if month == 2 then (if IsLeapYear(year) then 29 else 28)
    else if month == 4 || month == 6 || month == 9 || month == 11 then 30
    else 31
  }

  /** A date `datetime` can hold: a real day of a real month (years from 1 on). */
  predicate ValidDate(d: Date) {
    1 <= d.year && 1 <= d.month <= 12 && 1 <= d.day <= DaysInMonth(d.year, d.month)
  }

  /** Days in the years 1 .. year-1, in closed form. */
  function DaysBeforeYear(year: int): nat
    requires 1 <= year
  {
    var y := year - 1;
    365 * y + y / 4 - y / 100 + y / 400
  }

  /** Days in the months 1 .. month-1 of the given year. */
  function DaysBeforeMonth(year: int, month: int): nat
    requires 1 <= month <= 12
  {
    if month == 1 then 0 else DaysBeforeMonth(year, month - 1) + DaysInMonth(year, month - 1)
  }

  /** Days elapsed since 0001-01-01 (Python's `toordinal() - 1`). */
  function DayNumber(d: Date): (n: nat)
    requires ValidDate(d)
    ensures DaysBeforeYear(d.year) <= n < DaysBeforeYear(d.year + 1)
  {
    MonthWithinYear(d.year, d.month);
    DaysBeforeNextYear(d.year);
    DaysBeforeYear(d.year) + DaysBeforeMonth(d.year, d.month) + d.day - 1
  }

  /** d falls on an earlier day than e: years, then months, then days compared. */
  predicate Before(d: Date, e: Date) {
    d.year < e.year
    || (d.year == e.year && (d.month < e.month || (d.month == e.month && d.day < e.day)))
  }

  /** Weekday with Monday = 0: 0001-01-01 is a Monday in the proleptic Gregorian calendar. */
  function Weekday(d: Date): (w: int)
    requires ValidDate(d)
    ensures 0 <= w < 7
  {
    DayNumber(d) % 7
  }

  /** `calendar.monthrange(year, month)`: the weekday of day 1 and the number of days. */
  function MonthRange(year: int, month: int): (r: (int, int))
    requires 1 <= year && 1 <= month <= 12
    ensures 0 <= r.0 < 7 && 28 <= r.1 <= 31
    ensures ValidDate(Date(year, month, r.1)) && !ValidDate(Date(year, month, r.1 + 1))
  {
    (Weekday(Date(year, month, 1)), DaysInMonth(year, month))
  }

  /** The following calendar day. */
  function Next(d: Date): (e: Date)
    requires ValidDate(d)
    ensures ValidDate(e)
  {
    if d.day < DaysInMonth(d.year, d.month) then Date(d.year, d.month, d.day + 1)
    else if d.month < 12 then Date(d.year, d.month + 1, 1)
    else Date(d.year + 1, 1, 1)
  }

  /** The date k days after d. */
  function AddDays(d: Date, k: nat): (e: Date)
    requires ValidDate(d)
    ensures ValidDate(e)
    decreases k
  {
    if k == 0 then d else AddDays(Next(d), k - 1)
  }

  /** The year lengths add up to the closed form of DaysBeforeYear. */
  lemma DaysBeforeNextYear(year: int)
    requires 1 <= year
    ensures DaysBeforeYear(year + 1) == DaysBeforeYear(year) + YearLength(year)
  {
    var y := year - 1;
    var step4 := QuotientStep(y, 4);
    var step100 := QuotientStep(y, 100);
    var step400 := QuotientStep(y, 400);
    LeapIndicator(year);
    assert DaysBeforeYear(year + 1) == DaysBeforeYear(year) + 365 + step4 - step100 + step400;
  }

  /** Going from y to y + 1, the quotient by k grows by one exactly at multiples of k. */
  lemma QuotientStep(y: nat, k: int) returns (step: int)
    requires k == 4 || k == 100 || k == 400
    ensures step == (if (y + 1) % k == 0 then 1 else 0)
    ensures (y + 1) / k == y / k + step
  {
    step := if (y + 1) % k == 0 then 1 else 0;
  }

  /** The leap rule as a sum of indicators: multiples of 4, minus those of 100, plus those of 400. */
  lemma LeapIndicator(year: int)
    ensures (if year % 4 == 0 then 1 else 0) - (if year % 100 == 0 then 1 else 0) + (if year % 400 == 0 then 1 else 0)
            == if IsLeapYear(year) then 1 else 0
  {
    if year % 400 == 0 {
      assert year == 100 * (4 * (year / 400));
      assert year == 4 * (100 * (year / 400));
    } else if year % 100 == 0 {
      assert year == 4 * (25 * (year / 100));
    }
  }

  /** The twelve month lengths add up to the length of the year. */
  lemma MonthsFillYear(year: int)
    ensures DaysBeforeMonth(year, 12) + DaysInMonth(year, 12) == YearLength(year)
  {
    var leap := if IsLeapYear(year) then 1 else 0;
    assert DaysBeforeMonth(year, 2) == 31;
    assert DaysBeforeMonth(year, 3) == 59 + leap;
    assert DaysBeforeMonth(year, 4) == 90 + leap;
    assert DaysBeforeMonth(year, 5) == 120 + leap;
    assert DaysBeforeMonth(year, 6) == 151 + leap;
    assert DaysBeforeMonth(year, 7) == 181 + leap;
    assert DaysBeforeMonth(year, 8) == 212 + leap;
    assert DaysBeforeMonth(year, 9) == 243 + leap;
    assert DaysBeforeMonth(year, 10) == 273 + leap;
    assert DaysBeforeMonth(year, 11) == 304 + leap;
    assert DaysBeforeMonth(year, 12) == 334 + leap;
  }

  /** Each month ends no later than the next one starts. */
  lemma {:induction false} MonthsInOrder(year: int, m: int, n: int)
    requires 1 <= m < n <= 12
    ensures DaysBeforeMonth(year, m) + DaysInMonth(year, m) <= DaysBeforeMonth(year, n)
    decreases n
  {
    if m < n - 1 {
      MonthsInOrder(year, m, n - 1);
    }
  }

  /** Every month ends within its year. */
  lemma MonthWithinYear(year: int, month: int)
    requires 1 <= month <= 12
    ensures DaysBeforeMonth(year, month) + DaysInMonth(year, month) <= YearLength(year)
  {
    MonthsFillYear(year);
    if month < 12 {
      MonthsInOrder(year, month, 12);
    }
  }

  /** Each year ends no later than a later year starts. */
  lemma {:induction false} YearsInOrder(y: int, z: int)
    requires 1 <= y < z
    ensures DaysBeforeYear(y + 1) <= DaysBeforeYear(z)
    decreases z - y
  {
    if y + 1 < z {
      YearsInOrder(y + 1, z);
      DaysBeforeNextYear(y + 1);
    }
  }

  /** Day numbers order dates as the calendar does, so distinct dates have distinct numbers. */
  lemma DayNumberOrder(d: Date, e: Date)
    requires ValidDate(d) && ValidDate(e)
    ensures DayNumber(d) < DayNumber(e) <==> Before(d, e)
    ensures DayNumber(d) == DayNumber(e) <==> d == e
  {
    if d.year < e.year {
      YearsInOrder(d.year, e.year);
    } else if e.year < d.year {
      YearsInOrder(e.year, d.year);
    } else if d.month < e.month {
      MonthsInOrder(d.year, d.month, e.month);
    } else if e.month < d.month {
      MonthsInOrder(d.year, e.month, d.month);
    }
  }

  /** Consecutive calendar days have consecutive day numbers, so the weekday advances by one. */
  lemma NextDayNumber(d: Date)
    requires ValidDate(d)
    ensures DayNumber(Next(d)) == DayNumber(d) + 1
  {
    var e := Next(d);
    if d.day < DaysInMonth(d.year, d.month) {
      assert e == Date(d.year, d.month, d.day + 1);
    } else if d.month < 12 {
      assert e == Date(d.year, d.month + 1, 1);
      assert DaysBeforeMonth(e.year, e.month) == DaysBeforeMonth(d.year, d.month) + d.day;
    } else {
      assert e == Date(d.year + 1, 1, 1);
      DaysBeforeNextYear(d.year);
      MonthsFillYear(d.year);
    }
  }

  lemma {:induction false} AddDaysDayNumber(d: Date, k: nat)
    requires ValidDate(d)
    ensures DayNumber(AddDays(d, k)) == DayNumber(d) + k
    decreases k
  {
    if k > 0 {
      NextDayNumber(d);
      AddDaysDayNumber(Next(d), k - 1);
    }
  }

  /** k days later the weekday has advanced by k, modulo 7. */
  lemma WeekdayAfter(d: Date, k: nat)
    requires ValidDate(d)
    ensures Weekday(AddDays(d, k)) == (Weekday(d) + k) % 7
  {
    AddDaysDayNumber(d, k);
    WeekdayShift(d, AddDays(d, k), k);
  }

  lemma WeekdayShift(d: Date, e: Date, k: nat)
    requires ValidDate(d) && ValidDate(e) && DayNumber(e) == DayNumber(d) + k
    ensures Weekday(e) == (Weekday(d) + k) % 7
  {
    ShiftMod7(DayNumber(e), DayNumber(d), k);
  }

  lemma ShiftMod7(m: int, n: nat, k: nat)
    requires m == n + k
    ensures m % 7 == (n % 7 + k) % 7
  {
    var q := n / 7;
    var x := n % 7 + k;
    assert m == 7 * q + x;
    assert (7 * q + x) % 7 == x % 7 by {
      assert (7 * q + x) / 7 == q + x / 7;
    }
  }

  lemma {:induction false} AddDaysAdd(d: Date, a: nat, b: nat)
    requires ValidDate(d)
    ensures AddDays(d, a + b) == AddDays(AddDays(d, a), b)
    decreases a
  {
    if a > 0 {
      AddDaysAdd(Next(d), a - 1, b);
    }
  }

  /** Within a month, adding k days adds k to the day of the month. */
  lemma {:induction false} AddDaysWithinMonth(d: Date, k: nat)
    requires ValidDate(d) && d.day + k <= DaysInMonth(d.year, d.month)
    ensures AddDays(d, k) == Date(d.year, d.month, d.day + k)
    decreases k
  {
    if k > 0 {
      AddDaysWithinMonth(Next(d), k - 1);
    }
  }

  /** Two anchors: 0001-01-01 and 2019-07-01 are Mondays. */
  lemma KnownMondays()
    ensures Weekday(Date(1, 1, 1)) == 0
    ensures Weekday(Date(2019, 7, 1)) == 0
  {
    assert DaysBeforeMonth(2019, 7) == 181;
  }
}
