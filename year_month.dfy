/*
 * The month-assignment rule: a weekly survey record, given by the first and
 * the last day of its week, is filed under one `YYYYMM` month label.
 *
 * AssignYearMonth is the rule as the code states it; its comparison reads
 * the WEEKDAY of the end month's first day where the comment promises "the
 * month with more days in that week". IntendedYearMonth is the comparison
 * that promise calls for, and MajorityYearMonth counts the days of the
 * window directly. The lemmas relate the three.
 */
module YearMonth {
  import opened Calendar

  predicate AllDigits(s: string) {
    forall i :: 0 <= i < |s| ==> '0' <= s[i] <= '9'
  }

  function DigitChar(n: int): (c: char)
    requires 0 <= n <= 9
    ensures '0' <= c <= '9'
  {
    (48 + n) as char
  }

  /** Decimal notation of n without leading zeros, as glibc's `%Y` prints a year (older Python versions). */
  function Decimal(n: nat): (s: string)
    ensures 1 <= |s| && AllDigits(s)
  {
    if n < 10 then [DigitChar(n)] else Decimal(n / 10) + [DigitChar(n % 10)]
  }

  /** The number a string of decimal digits denotes. */
  function DecimalValue(s: string): nat
    requires AllDigits(s)
  {
    if s == [] then 0 else 10 * DecimalValue(s[..|s| - 1]) + (s[|s| - 1] as int - 48)
  }

  lemma {:induction false} DecimalRoundTrip(n: nat)
    ensures DecimalValue(Decimal(n)) == n
  {
    if n >= 10 {
      DecimalRoundTrip(n / 10);
      var s := Decimal(n);
      assert s[..|s| - 1] == Decimal(n / 10);
    }
  }

  /** Four-digit years print as four characters. */
  lemma DecimalOfFourDigits(n: nat)
    requires 1000 <= n <= 9999
    ensures |Decimal(n)| == 4
  {
    assert |Decimal(n / 1000)| == 1;
    assert n / 10 / 10 / 10 == n / 1000;
    assert |Decimal(n / 100)| == 2;
    assert |Decimal(n / 10)| == 3;
  }

  /** Two digits with a leading zero, as `%m` prints a month. */
  function TwoDigits(n: int): (s: string)
    requires 0 <= n <= 99
    ensures |s| == 2 && AllDigits(s)
  {
    [DigitChar(n / 10), DigitChar(n % 10)]
  }

  lemma TwoDigitsRoundTrip(n: int)
    requires 0 <= n <= 99
    ensures DecimalValue(TwoDigits(n)) == n
  {
    var s := TwoDigits(n);
    assert s[..1] == [DigitChar(n / 10)];
    assert s[..1][..0] == [];
    assert DecimalValue(s[..1]) == n / 10;
  }

  /** `date.strftime('%Y%m')`: the year, then the month on two digits. */
  function MonthLabel(d: Date): (s: string)
    requires ValidDate(d)
    ensures |s| >= 3
  {
    Decimal(d.year) + TwoDigits(d.month)
  }

  /**
   * A label is all digits; its last two spell the month and the rest the
   * year, and years 1000 to 9999 give six characters.
   */
  lemma MonthLabelParts(d: Date)
    requires ValidDate(d)
    ensures var s := MonthLabel(d);
            && AllDigits(s)
            && DecimalValue(s[..|s| - 2]) == d.year && DecimalValue(s[|s| - 2..]) == d.month
            && (1000 <= d.year <= 9999 ==> |s| == 6)
  {
    var s := MonthLabel(d);
    DecimalRoundTrip(d.year);
    assert s[..|s| - 2] == Decimal(d.year);
    assert s[|s| - 2..] == TwoDigits(d.month);
    TwoDigitsRoundTrip(d.month);
    if 1000 <= d.year <= 9999 {
      DecimalOfFourDigits(d.year);
    }
  }

  /** Labels tell months apart: two dates share a label exactly when they share year and month. */
  lemma SameLabelIffSameMonth(a: Date, b: Date)
    requires ValidDate(a) && ValidDate(b)
    ensures MonthLabel(a) == MonthLabel(b) <==> a.year == b.year && a.month == b.month
  {
    MonthLabelParts(a);
    MonthLabelParts(b);
    if MonthLabel(a) == MonthLabel(b) {
      var s := MonthLabel(a);
      assert DecimalValue(s[..|s| - 2]) == a.year == b.year;
    }
  }

  /**
   * The rule as coded: `monthrange(start)[1]` is the length of the start
   * month, but `monthrange(end)[0]` is the weekday (Monday = 0) of the end
   * month's first day. The start month wins only on a strict `>`.
   */
  function AssignYearMonth(start: Date, end: Date): (ym: string)
    requires ValidDate(start) && ValidDate(end)
    ensures ym == MonthLabel(start) || ym == MonthLabel(end)
    ensures start.year == end.year && start.month == end.month ==> ym == MonthLabel(start)
  {
    var lastDayOfStart := MonthRange(start.year, start.month).1;
    var firstDayOfEnd := MonthRange(end.year, end.month).0;
    if lastDayOfStart - start.day > end.day - firstDayOfEnd then MonthLabel(start) else MonthLabel(end)
  }

  /**
   * When the two dates lie in different months, the start month is chosen
   * exactly when its remaining days exceed the end's day of the month minus
   * the weekday of the end month's first day; otherwise, ties included, the
   * end month is chosen.
   */
  lemma StartMonthExactlyWhen(start: Date, end: Date)
    requires ValidDate(start) && ValidDate(end)
    requires start.year != end.year || start.month != end.month
    ensures AssignYearMonth(start, end) == MonthLabel(start)
            <==> DaysInMonth(start.year, start.month) - start.day > end.day - Weekday(Date(end.year, end.month, 1))
    ensures AssignYearMonth(start, end) == MonthLabel(end)
            <==> DaysInMonth(start.year, start.month) - start.day <= end.day - Weekday(Date(end.year, end.month, 1))
  {
    SameLabelIffSameMonth(start, end);
  }

  /** The comparison the comment describes: days left in the start month against days before `end` in its month. */
  function IntendedYearMonth(start: Date, end: Date): (ym: string)
    requires ValidDate(start) && ValidDate(end)
    ensures ym == MonthLabel(start) || ym == MonthLabel(end)
  {
    if DaysInMonth(start.year, start.month) - start.day > end.day - 1 then MonthLabel(start) else MonthLabel(end)
  }

  /** How many of the n consecutive days starting at d fall in the given month. */
  function DaysInWindow(d: Date, n: nat, year: int, month: int): (c: nat)
    requires ValidDate(d)
    ensures c <= n
    decreases n
  {
    if n == 0 then 0
    else (if d.year == year && d.month == month then 1 else 0) + DaysInWindow(Next(d), n - 1, year, month)
  }

  /**
   * "The month with more days in that week": of the span + 1 days from start
   * to AddDays(start, span), the month of start when it holds more of them,
   * otherwise (ties included) the month of the last day.
   */
  function MajorityYearMonth(start: Date, span: nat): (ym: string)
    requires ValidDate(start)
    ensures ym == MonthLabel(start) || ym == MonthLabel(AddDays(start, span))
  {
    var end := AddDays(start, span);
    if DaysInWindow(start, span + 1, start.year, start.month) > DaysInWindow(start, span + 1, end.year, end.month)
    then MonthLabel(start) else MonthLabel(end)
  }

  lemma {:induction false} WindowWithinMonth(d: Date, n: nat, year: int, month: int)
    requires ValidDate(d) && d.day + n <= DaysInMonth(d.year, d.month) + 1
    ensures DaysInWindow(d, n, year, month) == if d.year == year && d.month == month then n else 0
    decreases n
  {
    if n > 1 {
      WindowWithinMonth(Next(d), n - 1, year, month);
    }
  }

  lemma {:induction false} WindowSplit(d: Date, a: nat, b: nat, year: int, month: int)
    requires ValidDate(d)
    ensures DaysInWindow(d, a + b, year, month)
            == DaysInWindow(d, a, year, month) + DaysInWindow(AddDays(d, a), b, year, month)
    decreases a
  {
    if a > 0 {
      WindowSplit(Next(d), a - 1, b, year, month);
    }
  }

  /**
   * A window that leaves the start month after its first t + 1 days (t the
   * days left after start) enters the following month on its day 1 and ends
   * on day span - t of it.
   */
  lemma CrossingWindow(start: Date, span: nat) returns (first: Date)
    requires ValidDate(start)
    requires DaysInMonth(start.year, start.month) - start.day < span <= 28
    ensures first == AddDays(start, DaysInMonth(start.year, start.month) - start.day + 1)
    ensures ValidDate(first) && first.day == 1
    ensures first.year != start.year || first.month != start.month
    ensures AddDays(start, span)
            == Date(first.year, first.month, span - (DaysInMonth(start.year, start.month) - start.day))
  {
    var t := DaysInMonth(start.year, start.month) - start.day;
    AddDaysWithinMonth(start, t);
    var last := AddDays(start, t);
    AddDaysAdd(start, t, 1);
    first := AddDays(start, t + 1);
    assert first == Next(last);
    AddDaysAdd(start, t + 1, span - t - 1);
    AddDaysWithinMonth(first, span - t - 1);
  }

  /** For windows of up to 29 days the intended comparison picks the month holding more of them. */
  lemma IntendedIsMajority(start: Date, span: nat)
    requires ValidDate(start) && span <= 28
    ensures IntendedYearMonth(start, AddDays(start, span)) == MajorityYearMonth(start, span)
  {
    if span <= DaysInMonth(start.year, start.month) - start.day {
      AddDaysWithinMonth(start, span);
    } else {
      CrossingCounts(start, span);
    }
  }

  /** In a window that crosses into the next month, t + 1 days lie in the first month and span - t in the second. */
  lemma CrossingCounts(start: Date, span: nat)
    requires ValidDate(start)
    requires DaysInMonth(start.year, start.month) - start.day < span <= 28
    ensures var t := DaysInMonth(start.year, start.month) - start.day;
            var end := AddDays(start, span);
            && end.day == span - t
            && DaysInWindow(start, span + 1, start.year, start.month) == t + 1
            && DaysInWindow(start, span + 1, end.year, end.month) == span - t
  {
    var t := DaysInMonth(start.year, start.month) - start.day;
    var end := AddDays(start, span);
    var first := CrossingWindow(start, span);
    CrossingCount(start, t, span - t, first, start.year, start.month);
    CrossingCount(start, t, span - t, first, end.year, end.month);
  }

  /** The days of a window in one month: those of its first t + 1 days, then those of the rest from first on. */
  lemma CrossingCount(start: Date, t: nat, rest: nat, first: Date, year: int, month: int)
    requires ValidDate(start) && t == DaysInMonth(start.year, start.month) - start.day
    requires ValidDate(first) && first == AddDays(start, t + 1) && first.day == 1 && rest <= 28
    ensures DaysInWindow(start, t + 1 + rest, year, month)
            == (if start.year == year && start.month == month then t + 1 else 0)
               + (if first.year == year && first.month == month then rest else 0)
  {
    WindowSplit(start, t + 1, rest, year, month);
    WindowWithinMonth(start, t + 1, year, month);
    WindowWithinMonth(first, rest, year, month);
  }

  /**
   * On Sunday-to-Saturday weeks the coded rule and the intended
   * one agree: the weekday of the end month's first day then equals the days
   * left in the start month, and both comparisons reduce to "at least three".
   */
  lemma AsWrittenAgreesOnSundayWeeks(start: Date)
    requires ValidDate(start) && Weekday(start) == 6
    ensures AssignYearMonth(start, AddDays(start, 6)) == IntendedYearMonth(start, AddDays(start, 6))
    ensures AssignYearMonth(start, AddDays(start, 6)) == MajorityYearMonth(start, 6)
  {
    var t := DaysInMonth(start.year, start.month) - start.day;
    var end := AddDays(start, 6);
    if 6 <= t {
      AddDaysWithinMonth(start, 6);
    } else {
      var w := SundayWeekFirstWeekday(start);
      assert end.day - w == 6 - 2 * t;
      assert (t > 6 - 2 * t) == (t > end.day - 1);
    }
    IntendedIsMajority(start, 6);
  }

  /** A Sunday week that leaves its month after t + 1 days ends on day 6 - t of a month starting on weekday t. */
  lemma SundayWeekFirstWeekday(start: Date) returns (w: int)
    requires ValidDate(start) && Weekday(start) == 6
    requires DaysInMonth(start.year, start.month) - start.day < 6
    ensures var end := AddDays(start, 6);
            w == MonthRange(end.year, end.month).0
            && end.day == 6 - (DaysInMonth(start.year, start.month) - start.day)
            && w == DaysInMonth(start.year, start.month) - start.day
  {
    var t := DaysInMonth(start.year, start.month) - start.day;
    var end := AddDays(start, 6);
    var first := CrossingWindow(start, 6);
    assert first == Date(end.year, end.month, 1);
    SundayCrossingWeekday(start, first);
    w := MonthRange(end.year, end.month).0;
  }

  lemma SundayCrossingWeekday(start: Date, first: Date)
    requires ValidDate(start) && Weekday(start) == 6
    requires DaysInMonth(start.year, start.month) - start.day < 6
    requires first == AddDays(start, DaysInMonth(start.year, start.month) - start.day + 1)
    ensures Weekday(first) == DaysInMonth(start.year, start.month) - start.day
  {
    var t := DaysInMonth(start.year, start.month) - start.day;
    WeekdayAfter(start, t + 1);
    var ws, wf := Weekday(start), Weekday(first);
    assert wf == (ws + (t + 1)) % 7;
    SundayPlus(t);
  }

  lemma SundayPlus(t: int)
    requires 0 <= t < 6
    ensures (6 + (t + 1)) % 7 == t
  {
  }

  /**
   * The coded rule on a Monday-to-Sunday week: July 29-31 against August 1-4.
   * August holds four of the seven days, yet the coded rule files the week
   * under July, because August 1, 2019 is a Thursday (weekday 3).
   */
  lemma AsWrittenMisfilesMondayWeek()
    ensures AddDays(Date(2019, 7, 29), 6) == Date(2019, 8, 4)
    ensures AssignYearMonth(Date(2019, 7, 29), Date(2019, 8, 4)) == "201907"
    ensures IntendedYearMonth(Date(2019, 7, 29), Date(2019, 8, 4)) == "201908"
    ensures MajorityYearMonth(Date(2019, 7, 29), 6) == "201908"
  {
    assert DaysBeforeMonth(2019, 8) == 212;
    assert Weekday(Date(2019, 8, 1)) == 3;
    assert MonthLabel(Date(2019, 7, 29)) == "201907";
    assert MonthLabel(Date(2019, 8, 4)) == "201908";
    var first := CrossingWindow(Date(2019, 7, 29), 6);
    IntendedIsMajority(Date(2019, 7, 29), 6);
  }

  /**
   * A week from Friday June 28 to Thursday July 4, 2019: three June days against
   * four July ones. As written the rule compares 30 - 28 = 2 days after the start
   * with 4 - 0 = 4 (July 2019 starts on a Monday), so the week goes to July.
   */
  lemma EndOfJuneWeek()
    ensures AssignYearMonth(Date(2019, 6, 28), Date(2019, 7, 4)) == "201907"
  {
    KnownMondays();
    assert MonthLabel(Date(2019, 7, 4)) == "201907";
  }
}
