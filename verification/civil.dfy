/** Proleptic Gregorian civil dates, as Go's `time` package sees them, and as
    Ruby's `Date` class sees them from 1582-10-15 on (before that day its
    default calendar is Julian): leap years, month lengths, a day number
    (days since 1970-01-01), stepping one day forward or back, and weekdays. */
module Civil {

  datatype Date = Date(year: int, month: int, day: int)

  /** Seconds in a UTC day; instants are whole seconds since 1970-01-01T00:00:00Z. */
  const SecondsPerDay: int := 86400

  predicate IsLeapYear(y: int) {
    y % 4 == 0 && (y % 100 != 0 || y % 400 == 0)
  }

  function DaysInMonth(y: int, m: int): (n: int)
    requires 1 <= m <= 12
    ensures 28 <= n <= 31
    ensures n == 29 <==> m == 2 && IsLeapYear(y)
  {
    if m == 2 then (if IsLeapYear(y) then 29 else 28)
    else if m == 4 || m == 6 || m == 9 || m == 11 then 30
    else 31
  }

  function DaysInYear(y: int): int {
    if IsLeapYear(y) then 366 else 365
  }

  predicate ValidDate(d: Date) {
    1 <= d.month <= 12 && 1 <= d.day <= DaysInMonth(d.year, d.month)
  }

  /** Day number of January 1st of year `y`: the lengths of the years from
      1970 up to `y`, or minus those from `y` up to 1970. */
  function DaysBeforeYear(y: int): int
    decreases if y < 1970 then 1970 - y else y - 1970
  {
    if y == 1970 then 0
    else if y > 1970 then DaysBeforeYear(y - 1) + DaysInYear(y - 1)
    else DaysBeforeYear(y + 1) - DaysInYear(y)
  }

  /** Days of year `y` before the first of month `m`. */
  function DaysBeforeMonth(y: int, m: int): (n: int)
    requires 1 <= m <= 12
    ensures 28 * (m - 1) <= n <= 31 * (m - 1)
  {
    if m == 1 then 0 else DaysBeforeMonth(y, m - 1) + DaysInMonth(y, m - 1)
  }

  /** Days since 1970-01-01 (negative before it); Go's internal day count,
      and Ruby's Julian day number for dates from 1582-10-15 on, differ from
      it by a constant. */
  function DayNumber(d: Date): int
    requires 1 <= d.month <= 12
  {
    DaysBeforeYear(d.year) + DaysBeforeMonth(d.year, d.month) + d.day - 1
  }

  /** The UTC instant of midnight at the start of `d`. */
  function Midnight(d: Date): int
    requires 1 <= d.month <= 12
  {
    DayNumber(d) * SecondsPerDay
  }

  /** Months counted from January of year 0; the month of index `mi` is
      `MonthDate(mi, day)`'s. */
  function MonthIndex(d: Date): int {
    d.year * 12 + d.month - 1
  }

  function MonthDate(mi: int, day: int): (d: Date)
    ensures 1 <= d.month <= 12 && MonthIndex(d) == mi && d.day == day
  {
    Date(mi / 12, mi % 12 + 1, day)
  }

  function MonthLength(mi: int): int {
    DaysInMonth(mi / 12, mi % 12 + 1)
  }

  /** A date is recovered from its month index and its day. */
  lemma MonthDateOf(d: Date)
    requires 1 <= d.month <= 12
    ensures MonthDate(MonthIndex(d), d.day) == d
    ensures MonthLength(MonthIndex(d)) == DaysInMonth(d.year, d.month)
  {
  }

  function LastOfMonth(d: Date): (r: Date)
    requires 1 <= d.month <= 12
    ensures ValidDate(r) && MonthIndex(r) == MonthIndex(d) && r.day == MonthLength(MonthIndex(d))
  {
    Date(d.year, d.month, DaysInMonth(d.year, d.month))
  }

  /** `d.AddDate(0, 0, 1)`. */
  function NextDay(d: Date): Date
    requires ValidDate(d)
  {
    if d.day < DaysInMonth(d.year, d.month) then Date(d.year, d.month, d.day + 1)
    else if d.month < 12 then Date(d.year, d.month + 1, 1)
    else Date(d.year + 1, 1, 1)
  }

  /** `d.AddDate(0, 0, -1)`. */
  function PrevDay(d: Date): Date
    requires ValidDate(d)
  {
    if d.day > 1 then Date(d.year, d.month, d.day - 1)
    else if d.month > 1 then Date(d.year, d.month - 1, DaysInMonth(d.year, d.month - 1))
    else Date(d.year - 1, 12, 31)
  }

  /** `d.AddDate(0, 0, n)`: `n` days later (earlier when `n` is negative). */
  function AddDays(d: Date, n: int): (r: Date)
    requires ValidDate(d)
    ensures ValidDate(r) && DayNumber(r) == DayNumber(d) + n
    decreases if n < 0 then -n else n
  {
    if n == 0 then d
    else if n > 0 then
      NextDayNumber(d);
      AddDays(NextDay(d), n - 1)
    else
      PrevDayNumber(d);
      AddDays(PrevDay(d), n + 1)
  }

  /** Go's `Weekday()`: Sunday is 0; 1970-01-01 was a Thursday (4). */
  function Weekday(d: Date): (w: int)
    requires 1 <= d.month <= 12
    ensures 0 <= w < 7
  {
    (DayNumber(d) + 4) % 7
  }

  lemma DaysBeforeYearStep(y: int)
    ensures DaysBeforeYear(y + 1) == DaysBeforeYear(y) + DaysInYear(y)
  {
  }

  lemma {:induction false} DaysBeforeYearOrder(y1: int, y2: int)
    requires y1 < y2
    ensures DaysBeforeYear(y1) + DaysInYear(y1) <= DaysBeforeYear(y2)
    decreases y2 - y1
  {
    DaysBeforeYearStep(y1);
    if y1 + 1 < y2 {
      DaysBeforeYearOrder(y1 + 1, y2);
    }
  }

  lemma {:induction false} DaysBeforeMonthOrder(y: int, m1: int, m2: int)
    requires 1 <= m1 < m2 <= 12
    ensures DaysBeforeMonth(y, m1) + DaysInMonth(y, m1) <= DaysBeforeMonth(y, m2)
    decreases m2
  {
    if m1 < m2 - 1 {
      DaysBeforeMonthOrder(y, m1, m2 - 1);
    }
  }

  /** The months of a year add up to the year's length. */
  lemma MonthsFillYear(y: int)
    ensures DaysBeforeMonth(y, 12) + DaysInMonth(y, 12) == DaysInYear(y)
  {
    var leap := if IsLeapYear(y) then 1 else 0;
    assert DaysBeforeMonth(y, 2) == 31;
    assert DaysBeforeMonth(y, 3) == 59 + leap;
    assert DaysBeforeMonth(y, 4) == 90 + leap;
    assert DaysBeforeMonth(y, 5) == 120 + leap;
    assert DaysBeforeMonth(y, 6) == 151 + leap;
    assert DaysBeforeMonth(y, 7) == 181 + leap;
    assert DaysBeforeMonth(y, 8) == 212 + leap;
    assert DaysBeforeMonth(y, 9) == 243 + leap;
    assert DaysBeforeMonth(y, 10) == 273 + leap;
    assert DaysBeforeMonth(y, 11) == 304 + leap;
    assert DaysBeforeMonth(y, 12) == 334 + leap;
  }

  /** The day numbers of one year fill `[DaysBeforeYear(y), DaysBeforeYear(y) + DaysInYear(y))`. */
  lemma DayNumberInYear(d: Date)
    requires ValidDate(d)
    ensures DaysBeforeYear(d.year) <= DayNumber(d) < DaysBeforeYear(d.year) + DaysInYear(d.year)
  {
    MonthsFillYear(d.year);
    if d.month < 12 {
      DaysBeforeMonthOrder(d.year, d.month, 12);
    }
  }

  /** Day numbers follow the calendar order of valid dates. */
  lemma DayNumberOrder(a: Date, b: Date)
    requires ValidDate(a) && ValidDate(b)
    requires a.year < b.year || (a.year == b.year && (a.month < b.month || (a.month == b.month && a.day < b.day)))
    ensures DayNumber(a) < DayNumber(b)
  {
    DayNumberInYear(a);
    DayNumberInYear(b);
    if a.year < b.year {
      DaysBeforeYearOrder(a.year, b.year);
    } else if a.month < b.month {
      DaysBeforeMonthOrder(a.year, a.month, b.month);
    }
  }

  /** Two valid dates with the same day number are the same date. */
  lemma DayNumberInjective(a: Date, b: Date)
    requires ValidDate(a) && ValidDate(b) && DayNumber(a) == DayNumber(b)
    ensures a == b
  {
    if a.year < b.year || (a.year == b.year && (a.month < b.month || (a.month == b.month && a.day < b.day))) {
      DayNumberOrder(a, b);
    } else if b.year < a.year || (b.year == a.year && (b.month < a.month || (b.month == a.month && b.day < a.day))) {
      DayNumberOrder(b, a);
    }
  }

  /** A later day number never lies in an earlier month. */
  lemma MonthIndexMonotone(a: Date, b: Date)
    requires ValidDate(a) && ValidDate(b) && DayNumber(a) <= DayNumber(b)
    ensures MonthIndex(a) <= MonthIndex(b)
  {
    if MonthIndex(b) < MonthIndex(a) {
      DayNumberOrder(b, a);
    }
  }

  lemma NextDayNumber(d: Date)
    requires ValidDate(d)
    ensures ValidDate(NextDay(d)) && DayNumber(NextDay(d)) == DayNumber(d) + 1
    ensures NextDay(d).day == 1 <==> d.day == DaysInMonth(d.year, d.month)
    ensures NextDay(d).day == 1 ==> MonthIndex(NextDay(d)) == MonthIndex(d) + 1
    ensures NextDay(d).day != 1 ==> MonthIndex(NextDay(d)) == MonthIndex(d) && NextDay(d).day == d.day + 1
  {
    if d.day == DaysInMonth(d.year, d.month) && d.month == 12 {
      DaysBeforeYearStep(d.year);
      MonthsFillYear(d.year);
    }
  }

  /** The day after `d` is valid: the first of a month, or the next day of the same month. */
  lemma NextDayValid(d: Date)
    requires ValidDate(d)
    ensures ValidDate(NextDay(d))
    ensures NextDay(d).day == 1 || NextDay(d).day == d.day + 1
  {
  }

  lemma PrevDayNumber(d: Date)
    requires ValidDate(d)
    ensures ValidDate(PrevDay(d)) && DayNumber(PrevDay(d)) == DayNumber(d) - 1
  {
    assert NextDay(PrevDay(d)) == d;
    NextDayNumber(PrevDay(d));
  }

  /** Days counted forward from the first of a month stay in that month until it ends. */
  lemma {:induction false} AddDaysWithinMonth(d: Date, k: int)
    requires ValidDate(d) && 0 <= k && d.day + k <= DaysInMonth(d.year, d.month)
    ensures AddDays(d, k) == Date(d.year, d.month, d.day + k)
  {
    var r := AddDays(d, k);
    var e := Date(d.year, d.month, d.day + k);
    assert DayNumber(e) == DayNumber(d) + k;
    DayNumberInjective(r, e);
  }

  /** Every valid date `k` days after `d` is `AddDays(d, k)`. */
  lemma AddDaysReaches(d: Date, e: Date)
    requires ValidDate(d) && ValidDate(e)
    ensures AddDays(d, DayNumber(e) - DayNumber(d)) == e
  {
    DayNumberInjective(AddDays(d, DayNumber(e) - DayNumber(d)), e);
  }

  /** A date `k` days after another falls `k` weekdays later, modulo 7. */
  lemma WeekdayAfter(d: Date, e: Date, k: int)
    requires 1 <= d.month <= 12 && 1 <= e.month <= 12 && DayNumber(e) == DayNumber(d) + k
    ensures Weekday(e) == (Weekday(d) + k) % 7
  {
    var x := DayNumber(d) + 4;
    ModShift(x % 7 + k, x / 7);
  }

  lemma ModShift(a: int, q: int)
    ensures (a + 7 * q) % 7 == a % 7
  {
  }
}
