/** The template helpers of goodreads_timelines.go that lay each month of the
    `byMonth` result onto a calendar of weeks, Sunday first: a point is a cell
    of the grid (`7 * week + weekday`), `offset` is the weekday of the month's
    first day, and the cell at point `p` shows day `p - offset + 1`. Also the
    `isoDate` stamp, `inc`, and `reviewLength`'s count. */
module Grid {
  import opened Civil
  import opened Goodreads
  import Decimal
  import opened Timeline

  /** `isoDate`: `t.Format("2006-01-02")`, the full-date of section 5.6 of
      RFC 3339 for years 0 to 9999. */
  function IsoDate(d: Date): (s: string)
    requires ValidDate(d)
    ensures 0 <= d.year <= 9999 ==>
              |s| == 10 && s[4] == '-' && s[7] == '-' &&
              Decimal.AllDigits(s[..4]) && Decimal.AllDigits(s[5..7]) && Decimal.AllDigits(s[8..])
  {
    Decimal.DecLength(d.month);
    Decimal.DecLength(d.day);
    Decimal.DecLength(if d.year < 0 then -d.year else d.year);
    var y, m, dd := Decimal.AppendInt(d.year, 4), Decimal.AppendInt(d.month, 2), Decimal.AppendInt(d.day, 2);
    JoinFields(y, m, dd);
    y + "-" + m + "-" + dd
  }

  /** Where the fields of a four-two-two stamp sit in the joined text. */
  lemma JoinFields(y: string, m: string, dd: string)
    ensures |y| == 4 && |m| == 2 && |dd| == 2 ==>
              var s := y + "-" + m + "-" + dd;
              |s| == 10 && s[4] == '-' && s[7] == '-' && s[..4] == y && s[5..7] == m && s[8..] == dd
  {
  }

  /** Reading the three fields of an ISO date back gives the date. */
  lemma IsoDateFields(d: Date)
    requires ValidDate(d) && 0 <= d.year <= 9999
    ensures Decimal.Value(IsoDate(d)[..4]) == d.year
    ensures Decimal.Value(IsoDate(d)[5..7]) == d.month
    ensures Decimal.Value(IsoDate(d)[8..]) == d.day
  {
    var s := IsoDate(d);
    Decimal.DecLength(d.month);
    Decimal.DecLength(d.day);
    Decimal.DecLength(d.year);
    var y, m, dd := Decimal.AppendInt(d.year, 4), Decimal.AppendInt(d.month, 2), Decimal.AppendInt(d.day, 2);
    JoinFields(y, m, dd);
    Decimal.ValueZeroPad(d.year, 4);
    Decimal.ValueZeroPad(d.month, 2);
    Decimal.ValueZeroPad(d.day, 2);
  }

  /** Three fields joined by dashes, the last two of two characters each,
      are recovered from the joined text. */
  lemma SplitFields(y1: string, m1: string, d1: string, y2: string, m2: string, d2: string)
    requires |m1| == |m2| == |d1| == |d2| == 2
    requires y1 + "-" + m1 + "-" + d1 == y2 + "-" + m2 + "-" + d2
    ensures y1 == y2 && m1 == m2 && d1 == d2
  {
    var s := y1 + "-" + m1 + "-" + d1;
    var n := |s|;
    assert |y1| == n - 6 == |y2|;
    assert s[..n - 6] == y1;
    assert (y2 + "-" + m2 + "-" + d2)[..n - 6] == y2;
    assert s[n - 5..n - 3] == m1;
    assert (y2 + "-" + m2 + "-" + d2)[n - 5..n - 3] == m2;
    assert s[n - 2..] == d1;
    assert (y2 + "-" + m2 + "-" + d2)[n - 2..] == d2;
  }

  /** Month and day fields of a valid date take exactly two characters. */
  lemma TwoDigitFields(d: Date)
    requires ValidDate(d)
    ensures |Decimal.AppendInt(d.month, 2)| == 2 && |Decimal.AppendInt(d.day, 2)| == 2
  {
    Decimal.DecLength(d.month);
    Decimal.DecLength(d.day);
  }

  /** Different dates get different stamps, in any year. */
  lemma IsoDateInjective(a: Date, b: Date)
    requires ValidDate(a) && ValidDate(b) && IsoDate(a) == IsoDate(b)
    ensures a == b
  {
    TwoDigitFields(a);
    TwoDigitFields(b);
    SplitFields(Decimal.AppendInt(a.year, 4), Decimal.AppendInt(a.month, 2), Decimal.AppendInt(a.day, 2),
                Decimal.AppendInt(b.year, 4), Decimal.AppendInt(b.month, 2), Decimal.AppendInt(b.day, 2));
    Decimal.AppendIntInjective(a.year, b.year, 4);
    Decimal.AppendIntInjective(a.month, b.month, 2);
    Decimal.AppendIntInjective(a.day, b.day, 2);
  }

  /** Reviews held in the slots of one month row, counted slot by slot. */
  function SlotCount(days: seq<seq<Review>>): nat {
    if days == [] then 0 else SlotCount(days[..|days| - 1]) + |days[|days| - 1]|
  }

  /** `reviewLength`: the number of reviews in a month row. */
  method ReviewLength(days: seq<seq<Review>>) returns (sum: int)
    ensures sum == SlotCount(days)
  {
    sum := 0;
    for i := 0 to |days|
      invariant sum == SlotCount(days[..i])
    {
      assert days[..i + 1][..i] == days[..i];
      sum := sum + |days[i]|;
    }
    assert days[..|days|] == days;
  }

  /** The count of a row is the length of its reviews laid end to end. */
  lemma {:induction false} SlotCountFlatten(days: seq<seq<Review>>)
    ensures SlotCount(days) == |FlattenMonth(days)|
  {
    if days != [] {
      SlotCountFlatten(days[..|days| - 1]);
    }
  }

  /** The counts of all rows added up. */
  function RowsCount(months: seq<seq<seq<Review>>>): nat {
    if months == [] then 0 else RowsCount(months[..|months| - 1]) + SlotCount(months[|months| - 1])
  }

  lemma {:induction false} RowsCountFlatten(months: seq<seq<seq<Review>>>)
    ensures RowsCount(months) == |Flatten(months)|
  {
    if months != [] {
      RowsCountFlatten(months[..|months| - 1]);
      SlotCountFlatten(months[|months| - 1]);
    }
  }

  /** When every review lies strictly inside a UTC day of the span, in
      ascending day order, the month counts of `byMonth`'s result add up to
      the number of reviews, the page's `ReviewLength`. */
  lemma ReviewLengthsAddUp(months: seq<seq<seq<Review>>>, first: Date, last: Date, reviews: seq<Review>)
    requires ValidDate(first) && ValidDate(last) && forall r <- reviews :: Parsed(r)
    requires ByMonthResult(months, first, last, reviews)
    requires forall i :: 0 <= i < |reviews| ==>
               !AtUtcMidnight(reviews[i]) && DayNumber(first) <= UtcDay(reviews[i]) <= DayNumber(last)
    requires forall i :: 0 < i < |reviews| ==> UtcDay(reviews[i - 1]) <= UtcDay(reviews[i])
    ensures RowsCount(months) == |reviews|
  {
    ByMonthPlacesAll(months, first, last, reviews);
    RowsCountFlatten(months);
  }

  /** `inc`: the next week number. */
  function Inc(x: int): int {
    x + 1
  }

  /** `offset`: the weekday of `t`, Sunday being 0; for a month's first day,
      the column its first cell sits in. */
  function Offset(d: Date): (o: int)
    requires 1 <= d.month <= 12
    ensures 0 <= o < 7
  {
    Weekday(d)
  }

  /** `pointFor`: the cell of column `day` in week `week`. */
  function PointFor(week: int, day: int): int {
    week * 7 + day
  }

  /** A cell determines its week and column, and every cell has one. */
  lemma PointForInverse(week: int, day: int, p: int)
    requires 0 <= day < 7
    ensures PointFor(week, day) / 7 == week && PointFor(week, day) % 7 == day
    ensures PointFor(p / 7, p % 7) == p && 0 <= p % 7 < 7
  {
  }

  lemma PointForInjective(w1: int, d1: int, w2: int, d2: int)
    requires 0 <= d1 < 7 && 0 <= d2 < 7 && PointFor(w1, d1) == PointFor(w2, d2)
    ensures w1 == w2 && d1 == d2
  {
    PointForInverse(w1, d1, 0);
    PointForInverse(w2, d2, 0);
  }

  /** `inc` moves one week down: the cell below `p` is `PointFor(Inc(week), day)`. */
  lemma IncNextWeek(week: int, day: int)
    ensures PointFor(Inc(week), day) == PointFor(week, day) + 7
  {
  }

  /** `between`: cell `point` shows a day from `first.Day()` to `last.Day()`. */
  predicate Between(point: int, offset: int, first: Date, last: Date) {
    point + 1 >= offset + first.day && point + 1 <= offset + last.day
  }

  /** The cells `between` accepts are the `last.day - first.day + 1`
      consecutive points from `offset + first.day - 1`, the one of day
      `point - offset + 1` each. */
  lemma BetweenRun(point: int, offset: int, first: Date, last: Date)
    ensures Between(point, offset, first, last) <==> first.day <= point - offset + 1 <= last.day
    ensures Between(point, offset, first, last) <==>
              offset + first.day - 1 <= point < (offset + first.day - 1) + (last.day - first.day + 1)
  {
  }

  /** `dateForPoint`: the date `point - offset` days after `first`. */
  function DateForPoint(point: int, offset: int, first: Date): (d: Date)
    requires ValidDate(first)
    ensures ValidDate(d) && DayNumber(d) == DayNumber(first) + (point - offset)
  {
    AddDays(first, point - offset)
  }

  /** On the grid of a month (`first` its 1st, `last` a day of it, `offset` the
      1st's weekday), a cell `between` accepts shows the day of that month
      numbered `point - offset + 1`. */
  lemma DateForPointInMonth(point: int, first: Date, last: Date)
    requires ValidDate(first) && first.day == 1
    requires ValidDate(last) && last.year == first.year && last.month == first.month
    requires Between(point, Offset(first), first, last)
    ensures DateForPoint(point, Offset(first), first) == Date(first.year, first.month, point - Offset(first) + 1)
  {
    var k := point - Offset(first);
    assert 0 <= k && first.day + k <= last.day;
    AddDaysWithinMonth(first, k);
  }

  lemma ColumnOf(o: int, week: int, day: int)
    requires 0 <= day < 7
    ensures (o + (PointFor(week, day) - o)) % 7 == day
  {
    ModShift(day, week);
  }

  /** Every cell shows a date of its own column's weekday. */
  lemma DateForPointWeekday(week: int, day: int, first: Date)
    requires ValidDate(first) && 0 <= day < 7
    ensures Offset(DateForPoint(PointFor(week, day), Offset(first), first)) == day
  {
    var o := Offset(first);
    var p := PointFor(week, day);
    var e := DateForPoint(p, o, first);
    WeekdayAfter(first, e, p - o);
    ColumnOf(o, week, day);
  }

  /** Each day of a month has exactly one cell in weeks 0 to 5 of its grid,
      and that cell shows it. */
  lemma GridCoversMonth(first: Date, k: int)
    requires ValidDate(first) && first.day == 1 && 1 <= k <= DaysInMonth(first.year, first.month)
    ensures var p := Offset(first) + k - 1;
            0 <= p / 7 < 6 && PointFor(p / 7, p % 7) == p &&
            Between(p, Offset(first), first, LastOfMonth(first)) &&
            DateForPoint(p, Offset(first), first) == Date(first.year, first.month, k)
    ensures forall w, d :: 0 <= d < 7 && PointFor(w, d) == Offset(first) + k - 1 ==>
              w == (Offset(first) + k - 1) / 7 && d == (Offset(first) + k - 1) % 7
  {
    var p := Offset(first) + k - 1;
    assert 0 <= p <= 36;
    PointForInverse(0, 0, p);
    var last := LastOfMonth(first);
    assert Between(p, Offset(first), first, last);
    DateForPointInMonth(p, first, last);
    forall w, d | 0 <= d < 7 && PointFor(w, d) == p
      ensures w == p / 7 && d == p % 7
    {
      PointForInverse(w, d, p);
    }
  }

  /** `reviewsFor`: the slot of `date`'s day in a month row. */
  function ReviewsFor(date: Date, days: seq<seq<Review>>): seq<Review>
    requires 1 <= date.day <= |days|
  {
    days[date.day - 1]
  }

  lemma {:induction false} ShapedRow(months: seq<seq<seq<Review>>>, m0: int, m: int)
    requires Shaped(months, m0) && 0 <= m < |months|
    ensures |months[m]| == MonthLength(m0 + m)
  {
    if m < |months| - 1 {
      ShapedRow(months[..|months| - 1], m0, m);
    }
  }

  lemma {:induction false} SlotsAgreeRow(months: seq<seq<seq<Review>>>, m0: int, m: int)
    requires SlotsAgree(months, m0) && 0 <= m < |months|
    ensures DaysAgree(months[m], m0 + m)
  {
    if m < |months| - 1 {
      SlotsAgreeRow(months[..|months| - 1], m0, m);
    }
  }

  lemma {:induction false} DaysAgreeSlot(days: seq<seq<Review>>, mi: int, j: int)
    requires DaysAgree(days, mi) && 0 <= j < |days|
    ensures forall r <- days[j] :: InSlot(r, mi, j)
  {
    if j < |days| - 1 {
      DaysAgreeSlot(days[..|days| - 1], mi, j);
    }
  }

  /** In row `m` of `byMonth`'s result, every date of that month has a slot,
      and the reviews it shows are ones read strictly inside that UTC day. */
  lemma ReviewsForRow(months: seq<seq<seq<Review>>>, first: Date, last: Date, reviews: seq<Review>,
                      m: int, date: Date)
    requires ValidDate(first) && ValidDate(last) && forall r <- reviews :: Parsed(r)
    requires ByMonthResult(months, first, last, reviews)
    requires 0 <= m < |months| && ValidDate(date) && MonthIndex(date) == MonthIndex(first) + m
    ensures 1 <= date.day <= |months[m]|
    ensures forall r <- ReviewsFor(date, months[m]) ::
              Parsed(r) && !AtUtcMidnight(r) && UtcDay(r) == DayNumber(date)
  {
    var mi := MonthIndex(first) + m;
    ShapedRow(months, MonthIndex(first), m);
    MonthDateOf(date);
    SlotsAgreeRow(months, MonthIndex(first), m);
    DaysAgreeSlot(months[m], mi, date.day - 1);
  }
}
