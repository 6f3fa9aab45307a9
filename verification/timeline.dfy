/** timeline.go, `byMonth` and the start/finish derivation in `timeline`: the
    walk that lays a date-ordered list of reviews onto a ragged
    month → day-of-month → reviews structure covering whole calendar months. */
module Timeline {
  import opened Civil
  import opened Goodreads
  import opened Wrappers
  import Helpers

  /** Concatenation of a month's day slots, in day order. */
  function FlattenMonth(days: seq<seq<Review>>): seq<Review> {
    if days == [] then [] else FlattenMonth(days[..|days| - 1]) + days[|days| - 1]
  }

  /** Concatenation of every slot of every month, in calendar order. */
  function Flatten(months: seq<seq<seq<Review>>>): seq<Review> {
    if months == [] then [] else Flatten(months[..|months| - 1]) + FlattenMonth(months[|months| - 1])
  }

  /** Review `r` belongs in slot `j` (day `j + 1`) of the month with index
      `mi`: it lies strictly inside that UTC day. */
  predicate InSlot(r: Review, mi: int, j: int) {
    Parsed(r) && !AtUtcMidnight(r) && UtcDay(r) == DayNumber(MonthDate(mi, j + 1))
  }

  /** Every review in slot `j` of `days` lies in day `j + 1` of the month with index `mi`. */
  predicate DaysAgree(days: seq<seq<Review>>, mi: int) {
    if days == [] then true
    else
      var slot := days[|days| - 1];
      DaysAgree(days[..|days| - 1], mi) && forall r <- slot :: InSlot(r, mi, |days| - 1)
  }

  /** Every review held by `months` sits in the slot of its own UTC day, the
      first row being the month with index `m0`. */
  predicate SlotsAgree(months: seq<seq<seq<Review>>>, m0: int) {
    if months == [] then true
    else SlotsAgree(months[..|months| - 1], m0) && DaysAgree(months[|months| - 1], m0 + |months| - 1)
  }

  /** Each row has one slot per day of its month, the first row being the month with index `m0`. */
  predicate Shaped(months: seq<seq<seq<Review>>>, m0: int) {
    if months == [] then true
    else Shaped(months[..|months| - 1], m0) && |months[|months| - 1]| == MonthLength(m0 + |months| - 1)
  }

  /** The walk can place `reviews[i]` once it has placed all before it: the
      review lies strictly inside a UTC day of the span `first`..`last`, on or
      after the day of the review before it. A review read exactly at a UTC
      midnight is never placeable: `0 < dateDiff < 24` excludes it. */
  predicate Placeable(reviews: seq<Review>, i: int, first: Date, last: Date)
    requires 0 <= i < |reviews| && forall r <- reviews :: Parsed(r)
    requires ValidDate(first) && ValidDate(last)
  {
    !AtUtcMidnight(reviews[i]) &&
    DayNumber(first) <= UtcDay(reviews[i]) <= DayNumber(last) &&
    (i > 0 ==> UtcDay(reviews[i - 1]) <= UtcDay(reviews[i]))
  }

  /** What `byMonth` returns, for the span `first`..`last` (whole months): the
      right shape, every held review in its own day's slot, the held reviews
      being, in order, the longest prefix of `reviews` the walk can place. */
  predicate ByMonthResult(months: seq<seq<seq<Review>>>, first: Date, last: Date, reviews: seq<Review>)
    requires ValidDate(first) && ValidDate(last) && forall r <- reviews :: Parsed(r)
  {
    var n := |Flatten(months)|;
    |months| == MonthIndex(last) - MonthIndex(first) + 1 && Shaped(months, MonthIndex(first)) &&
    SlotsAgree(months, MonthIndex(first)) &&
    n <= |reviews| && Flatten(months) == reviews[..n] &&
    (forall i {:trigger Placeable(reviews, i, first, last)} :: 0 <= i < n ==> Placeable(reviews, i, first, last)) &&
    (n < |reviews| ==> !Placeable(reviews, n, first, last))
  }

  /** What `byMonth` returns when the finish month is the month before
      `first` (the last review's zone put it in an earlier month than the
      first review's): `length` is 1, so the result is one row with one slot,
      holding the leading reviews that lie strictly inside the UTC day of
      `first`, and the review after them does not. */
  predicate OneDayResult(months: seq<seq<seq<Review>>>, first: Date, reviews: seq<Review>)
    requires ValidDate(first) && forall r <- reviews :: Parsed(r)
  {
    var n := |Flatten(months)|;
    |months| == 1 && |months[0]| == 1 &&
    n <= |reviews| && Flatten(months) == reviews[..n] &&
    (forall i {:trigger Placeable(reviews, i, first, first)} :: 0 <= i < n ==> Placeable(reviews, i, first, first)) &&
    (n < |reviews| ==> !Placeable(reviews, n, first, first))
  }

  /** The fixed inputs of the walk: every review parsed, the span from the
      first of a month `first` to the last day of a month `last`, and
      `length`, the number of days in the span. */
  predicate WalkFrame(reviews: seq<Review>, first: Date, last: Date, length: int) {
    |reviews| > 0 && (forall r <- reviews :: Parsed(r)) &&
    ValidDate(first) && first.day == 1 &&
    ValidDate(last) && last.day == DaysInMonth(last.year, last.month) &&
    DayNumber(first) <= DayNumber(last) && length == DayNumber(last) - DayNumber(first) + 1
  }

  /** The day pointer: `currentDate` is day `day` of the span and day
      `currentDate.day` of row `month`; the earlier rows are finished months
      ending on `ends`; every review held sits in its own day's slot. */
  predicate WalkCalendar(first: Date, length: int, currentDate: Date, month: int, day: int,
                         rows: seq<seq<seq<Review>>>, ends: seq<Date>)
    requires ValidDate(first)
  {
    0 <= day < length && ValidDate(currentDate) && DayNumber(currentDate) == DayNumber(first) + day &&
    0 <= month && MonthIndex(currentDate) == MonthIndex(first) + month &&
    |rows| == month + 1 && |rows[month]| == currentDate.day &&
    RowsEndAt(rows[..month], ends, MonthIndex(first)) && SlotsAgree(rows, MonthIndex(first))
  }

  /** The review pointer: the rows hold `reviews[..review]`, each placeable,
      none later than the current day `dn`; the next review, when placeable,
      is not earlier than the current day. */
  predicate WalkProgress(reviews: seq<Review>, first: Date, last: Date, dn: int, currentReview: Review,
                         review: int, rows: seq<seq<seq<Review>>>)
    requires (forall r <- reviews :: Parsed(r)) && ValidDate(first) && ValidDate(last)
  {
    0 <= review <= |reviews| && Parsed(currentReview) &&
    (review < |reviews| ==> currentReview == reviews[review]) &&
    Flatten(rows) == reviews[..review] &&
    (forall i {:trigger Placeable(reviews, i, first, last)} :: 0 <= i < review ==> Placeable(reviews, i, first, last)) &&
    (review > 0 ==> UtcDay(reviews[review - 1]) <= dn) &&
    (review < |reviews| && Placeable(reviews, review, first, last) ==> dn <= UtcDay(reviews[review]))
  }

  /** The loop invariant of `byMonth`. The lemmas below take and give it as
      `Walk(…) == true`, a single fact, so that the verifier does not check
      each of its conjuncts separately at every call. */
  predicate Walk(reviews: seq<Review>, first: Date, last: Date, length: int, currentDate: Date,
                 currentReview: Review, month: int, day: int, review: int,
                 rows: seq<seq<seq<Review>>>, ends: seq<Date>)
  {
    WalkFrame(reviews, first, last, length) &&
    WalkCalendar(first, length, currentDate, month, day, rows, ends) &&
    WalkProgress(reviews, first, last, DayNumber(first) + day, currentReview, review, rows)
  }

  /** The review is placed in the current day: it lies strictly inside the UTC
      day that starts at `currentDate`. */
  predicate InCurrentDay(currentDate: Date, currentReview: Review)
    requires ValidDate(currentDate) && Parsed(currentReview)
  {
    0 < Midnight(NextDay(currentDate)) - InstantOf(currentReview) < SecondsPerDay
  }

  /** What the loop of `byMonth` needs of its state to take a step. */
  predicate WalkShape(reviews: seq<Review>, length: int, currentDate: Date, currentReview: Review,
                      month: int, day: int, review: int, rows: seq<seq<seq<Review>>>)
  {
    0 <= day < length && 0 <= review <= |reviews| && (forall r <- reviews :: Parsed(r)) &&
    ValidDate(currentDate) && Parsed(currentReview) &&
    0 <= month && |rows| == month + 1 && |rows[month]| == currentDate.day
  }

  /** The rows the loop of `byMonth` returns when started in the given state:
      one iteration either places the current review in the current day's
      slot, or moves to the next day (opening a new row on the first of a
      month), stopping once the last day is left. */
  ghost function Walked(reviews: seq<Review>, length: int, currentDate: Date, currentReview: Review,
                        month: int, day: int, review: int, rows: seq<seq<seq<Review>>>): seq<seq<seq<Review>>>
    requires WalkShape(reviews, length, currentDate, currentReview, month, day, review, rows)
    decreases |reviews| - review + length - day
  {
    var dateDiff := Midnight(NextDay(currentDate)) - InstantOf(currentReview);
    if review < |reviews| && 0 < dateDiff < SecondsPerDay then
      var d := currentDate.day - 1;
      var next := if review + 1 < |reviews| then reviews[review + 1] else currentReview;
      Walked(reviews, length, currentDate, next, month, day, review + 1, rows[month := rows[month][d := rows[month][d] + [currentReview]]])
    else if day + 1 == length then
      rows
    else
      NextDayValid(currentDate);
      var nextDate := NextDay(currentDate);
      if nextDate.day == 1 then
        Walked(reviews, length, nextDate, currentReview, month + 1, day + 1, review, (rows + [[]])[month + 1 := (rows + [[]])[month + 1] + [[]]])
      else
        Walked(reviews, length, nextDate, currentReview, month, day + 1, review, rows[month := rows[month] + [[]]])
  }

  /** `byMonth(startByMonth, finish, reviews)`. `startByMonth` is the first of a
      month at UTC midnight; only the year and month of `finish` (in its own
      zone) are used. The walk moves one pointer over the UTC days from
      `startByMonth` to the last day of `finish`'s month and another over the
      reviews, appending a review to the current day's slot while the review's
      instant lies strictly inside that day. */
  method ByMonth(startByMonth: Date, finish: Time, reviews: seq<Review>) returns (reviewsByMonth: seq<seq<seq<Review>>>)
    requires ValidDate(startByMonth) && startByMonth.day == 1 && ValidTime(finish)
    requires MonthIndex(startByMonth) <= MonthIndex(finish.date) + 1
    requires |reviews| > 0 && forall r <- reviews :: Parsed(r)
    ensures MonthIndex(startByMonth) <= MonthIndex(finish.date) ==>
              ByMonthResult(reviewsByMonth, startByMonth, LastOfMonth(finish.date), reviews)
    ensures MonthIndex(startByMonth) == MonthIndex(finish.date) + 1 ==>
              OneDayResult(reviewsByMonth, startByMonth, reviews)
  {
    var last := LastOfMonth(finish.date);
    // 23:59:59 on the last day of the finish month, in UTC
    var finishByMonth := Midnight(last) + SecondsPerDay - 1;
    var length := Helpers.DaysBetween(finishByMonth, Midnight(startByMonth)) + 1;
    if MonthIndex(startByMonth) <= MonthIndex(finish.date) {
      WalkResult(reviews, startByMonth, finish.date, length);
    } else {
      OneDayStart(startByMonth, finish.date, length);
      OneDayWalk(reviews, startByMonth, reviews[0], 0, []);
    }
    reviewsByMonth := WalkDays(reviews, startByMonth, length);
  }

  method WalkDays(reviews: seq<Review>, startByMonth: Date, length: int) returns (reviewsByMonth: seq<seq<seq<Review>>>)
    requires |reviews| > 0 && WalkShape(reviews, length, startByMonth, reviews[0], 0, 0, 0, [[[]]])
    ensures reviewsByMonth == Walked(reviews, length, startByMonth, reviews[0], 0, 0, 0, [[[]]])
  {
    var currentDate := startByMonth;
    reviewsByMonth := [[[]]];
    var currentReview := reviews[0];
    var month, day, review := 0, 0, 0;
    ghost var result := Walked(reviews, length, startByMonth, reviews[0], 0, 0, 0, [[[]]]);

    while true
      invariant WalkShape(reviews, length, currentDate, currentReview, month, day, review, reviewsByMonth)
      invariant Walked(reviews, length, currentDate, currentReview, month, day, review, reviewsByMonth) == result
      decreases |reviews| - review + length - day
    {
      // `dateDiff` in seconds; the source compares the same difference in hours with 0 and 24
      var dateDiff := Midnight(NextDay(currentDate)) - InstantOf(currentReview);

      if review < |reviews| && 0 < dateDiff < SecondsPerDay {
        var dayIndex := currentDate.day - 1;
        PlaceStep(reviews, length, currentDate, currentReview, month, day, review, reviewsByMonth);
        review := review + 1;
        reviewsByMonth := reviewsByMonth[month := reviewsByMonth[month][dayIndex := reviewsByMonth[month][dayIndex] + [currentReview]]];

        if review < |reviews| {
          currentReview := reviews[review];
        }
      } else {
        AdvanceStep(reviews, length, currentDate, currentReview, month, day, review, reviewsByMonth);
        day := day + 1;
        currentDate := NextDay(currentDate);

        if day == length {
          break;
        }

        if currentDate.day == 1 {
          month := month + 1;
          reviewsByMonth := reviewsByMonth + [[]];
        }
        reviewsByMonth := reviewsByMonth[month := reviewsByMonth[month] + [[]]];
      }
    }
  }

  /** Placing the current review leaves the rest of the walk unchanged. */
  lemma PlaceStep(reviews: seq<Review>, length: int, currentDate: Date, currentReview: Review,
                  month: int, day: int, review: int, rows: seq<seq<seq<Review>>>)
    requires WalkShape(reviews, length, currentDate, currentReview, month, day, review, rows)
    requires review < |reviews| && InCurrentDay(currentDate, currentReview)
    ensures var d := currentDate.day - 1;
            var next := if review + 1 < |reviews| then reviews[review + 1] else currentReview;
            var rows' := rows[month := rows[month][d := rows[month][d] + [currentReview]]];
            WalkShape(reviews, length, currentDate, next, month, day, review + 1, rows') &&
            Walked(reviews, length, currentDate, currentReview, month, day, review, rows) ==
            Walked(reviews, length, currentDate, next, month, day, review + 1, rows')
  {
  }

  /** Moving to the next day (or stopping after the last one) leaves the rest of the walk unchanged. */
  lemma AdvanceStep(reviews: seq<Review>, length: int, currentDate: Date, currentReview: Review,
                    month: int, day: int, review: int, rows: seq<seq<seq<Review>>>)
    requires WalkShape(reviews, length, currentDate, currentReview, month, day, review, rows)
    requires !(review < |reviews| && InCurrentDay(currentDate, currentReview))
    ensures ValidDate(NextDay(currentDate))
    ensures day + 1 == length ==> Walked(reviews, length, currentDate, currentReview, month, day, review, rows) == rows
    ensures day + 1 < length && NextDay(currentDate).day == 1 ==>
            var rows1 := rows + [[]];
            var rows' := rows1[month + 1 := rows1[month + 1] + [[]]];
            WalkShape(reviews, length, NextDay(currentDate), currentReview, month + 1, day + 1, review, rows') &&
            Walked(reviews, length, currentDate, currentReview, month, day, review, rows) ==
            Walked(reviews, length, NextDay(currentDate), currentReview, month + 1, day + 1, review, rows')
    ensures day + 1 < length && NextDay(currentDate).day != 1 ==>
            var rows' := rows[month := rows[month] + [[]]];
            WalkShape(reviews, length, NextDay(currentDate), currentReview, month, day + 1, review, rows') &&
            Walked(reviews, length, currentDate, currentReview, month, day, review, rows) ==
            Walked(reviews, length, NextDay(currentDate), currentReview, month, day + 1, review, rows')
  {
    NextDayValid(currentDate);
  }

  /** A finish month just before the start month leaves a span of one day:
      23:59:59 on its last day is one second before `first`, and the
      truncation in `daysBetween` makes that 0 days. */
  lemma OneDayStart(first: Date, finish: Date, length: int)
    requires ValidDate(first) && first.day == 1 && ValidDate(finish) && MonthIndex(first) == MonthIndex(finish) + 1
    requires length == Helpers.DaysBetween(Midnight(LastOfMonth(finish)) + SecondsPerDay - 1, Midnight(first)) + 1
    ensures DayNumber(LastOfMonth(finish)) + 1 == DayNumber(first)
    ensures length == 1
  {
    var last := LastOfMonth(finish);
    NextMonthStart(finish);
    MonthDateOf(NextDay(last));
    MonthDateOf(first);
    assert NextDay(last) == first;
    assert Midnight(last) + SecondsPerDay - 1 == Midnight(first) - 0 * SecondsPerDay - 1;
    Helpers.DaysBetweenTruncates(Midnight(first), 0, 1);
  }

  /** The day after the last of a month is the first of the next month. */
  lemma NextMonthStart(finish: Date)
    requires ValidDate(finish)
    ensures var next := NextDay(LastOfMonth(finish));
            next.day == 1 && ValidDate(next) && MonthIndex(next) == MonthIndex(finish) + 1 &&
            DayNumber(next) == DayNumber(LastOfMonth(finish)) + 1
  {
    var last := LastOfMonth(finish);
    MonthDateOf(finish);
    NextDayNumber(last);
  }

  /** The one-day walk: reviews inside the UTC day of `first` are placed in
      its slot one after the other until one is not, and then the walk stops. */
  lemma {:induction false} OneDayWalk(reviews: seq<Review>, first: Date, currentReview: Review, review: int,
                                      slot: seq<Review>)
    requires (forall r <- reviews :: Parsed(r)) && ValidDate(first) && first.day == 1
    requires 0 <= review <= |reviews| && Parsed(currentReview) && (review < |reviews| ==> currentReview == reviews[review])
    requires slot == reviews[..review]
    requires forall i :: 0 <= i < review ==> Placeable(reviews, i, first, first)
    ensures WalkShape(reviews, 1, first, currentReview, 0, 0, review, [[slot]])
    ensures OneDayResult(Walked(reviews, 1, first, currentReview, 0, 0, review, [[slot]]), first, reviews)
    decreases |reviews| - review
  {
    if review < |reviews| && InCurrentDay(first, currentReview) {
      OneDayPlaceable(reviews, first, review);
      var next := if review + 1 < |reviews| then reviews[review + 1] else currentReview;
      var rows := [[slot]];
      var d := first.day - 1;
      var placed := rows[0 := rows[0][d := rows[0][d] + [currentReview]]];
      assert placed[0] == [slot + [currentReview]];
      assert placed == [[slot + [currentReview]]];
      assert slot + [currentReview] == reviews[..review + 1];
      OneDayWalk(reviews, first, next, review + 1, slot + [currentReview]);
    } else {
      assert Flatten([[slot]]) == slot by {
        assert FlattenMonth([slot]) == FlattenMonth([]) + slot;
      }
      if review < |reviews| {
        OneDayPlaceable(reviews, first, review);
      }
    }
  }

  /** After reviews placed in the day of `first`, the next review is placeable
      in that one day exactly when it lies inside that day. */
  lemma OneDayPlaceable(reviews: seq<Review>, first: Date, review: int)
    requires (forall r <- reviews :: Parsed(r)) && ValidDate(first) && 0 <= review < |reviews|
    requires forall i :: 0 <= i < review ==> Placeable(reviews, i, first, first)
    ensures Placeable(reviews, review, first, first) <==> InCurrentDay(first, reviews[review])
  {
    var dn := DayNumber(first);
    NextDayNumber(first);
    var t := InstantOf(reviews[review]);
    if InCurrentDay(first, reviews[review]) {
      InsideDay(t, dn);
      if review > 0 {
        assert Placeable(reviews, review - 1, first, first);
      }
    }
  }

  lemma WalkStart(reviews: seq<Review>, first: Date, finish: Date, length: int)
    requires ValidDate(first) && first.day == 1 && ValidDate(finish) && MonthIndex(first) <= MonthIndex(finish)
    requires |reviews| > 0 && forall r <- reviews :: Parsed(r)
    requires length == Helpers.DaysBetween(Midnight(LastOfMonth(finish)) + SecondsPerDay - 1, Midnight(first)) + 1
    ensures DayNumber(first) < DayNumber(LastOfMonth(finish))
    ensures length == DayNumber(LastOfMonth(finish)) - DayNumber(first) + 1
    ensures WalkShape(reviews, length, first, reviews[0], 0, 0, 0, [[[]]])
  {
    var last := LastOfMonth(finish);
    DayNumberOrder(first, last);
    var n := DayNumber(last) - DayNumber(first);
    assert Midnight(last) + SecondsPerDay - 1 == Midnight(first) + n * SecondsPerDay + (SecondsPerDay - 1);
    Helpers.DaysBetweenTruncates(Midnight(first), n, SecondsPerDay - 1);
  }

  /** The walk started on the first day of the span returns what `byMonth` promises. */
  lemma WalkResult(reviews: seq<Review>, first: Date, finish: Date, length: int)
    requires ValidDate(first) && first.day == 1 && ValidDate(finish) && MonthIndex(first) <= MonthIndex(finish)
    requires |reviews| > 0 && forall r <- reviews :: Parsed(r)
    requires length == Helpers.DaysBetween(Midnight(LastOfMonth(finish)) + SecondsPerDay - 1, Midnight(first)) + 1
    ensures WalkShape(reviews, length, first, reviews[0], 0, 0, 0, [[[]]])
    ensures ByMonthResult(Walked(reviews, length, first, reviews[0], 0, 0, 0, [[[]]]), first, LastOfMonth(finish), reviews)
  {
    var last := LastOfMonth(finish);
    WalkStart(reviews, first, finish, length);
    assert Walk(reviews, first, last, length, first, reviews[0], 0, 0, 0, [[[]]], []);
    WalkCorrect(reviews, first, last, length, first, reviews[0], 0, 0, 0, [[[]]], [],
                Walked(reviews, length, first, reviews[0], 0, 0, 0, [[[]]]));
  }

  /** Started in a state satisfying the loop invariant `Walk`, the walk ends
      with what `byMonth` promises. */
  lemma {:induction false} WalkCorrect(reviews: seq<Review>, first: Date, last: Date, length: int, currentDate: Date,
      currentReview: Review, month: int, day: int, review: int,
      rows: seq<seq<seq<Review>>>, ends: seq<Date>, result: seq<seq<seq<Review>>>)
    requires Walk(reviews, first, last, length, currentDate, currentReview, month, day, review, rows, ends) == true
    requires WalkShape(reviews, length, currentDate, currentReview, month, day, review, rows)
    requires result == Walked(reviews, length, currentDate, currentReview, month, day, review, rows)
    ensures ByMonthResult(result, first, last, reviews)
    decreases |reviews| - review + length - day, 1
  {
    if review < |reviews| && InCurrentDay(currentDate, currentReview) {
      CorrectPlace(reviews, first, last, length, currentDate, currentReview, month, day, review, rows, ends, result);
    } else if day + 1 == length {
      AdvanceStep(reviews, length, currentDate, currentReview, month, day, review, rows);
      WalkDone(reviews, first, last, length, currentDate, currentReview, month, day, review, rows, ends);
    } else if NextDay(currentDate).day == 1 {
      CorrectNewMonth(reviews, first, last, length, currentDate, currentReview, month, day, review, rows, ends, result);
    } else {
      CorrectNewSlot(reviews, first, last, length, currentDate, currentReview, month, day, review, rows, ends, result);
    }
  }

  lemma {:induction false} CorrectPlace(reviews: seq<Review>, first: Date, last: Date, length: int, currentDate: Date,
      currentReview: Review, month: int, day: int, review: int,
      rows: seq<seq<seq<Review>>>, ends: seq<Date>, result: seq<seq<seq<Review>>>)
    requires Walk(reviews, first, last, length, currentDate, currentReview, month, day, review, rows, ends) == true
    requires WalkShape(reviews, length, currentDate, currentReview, month, day, review, rows)
    requires result == Walked(reviews, length, currentDate, currentReview, month, day, review, rows)
    requires review < |reviews| && InCurrentDay(currentDate, currentReview)
    ensures ByMonthResult(result, first, last, reviews)
    decreases |reviews| - review + length - day, 0
  {
    var next := if review + 1 < |reviews| then reviews[review + 1] else currentReview;
    var d := currentDate.day - 1;
    PlaceStep(reviews, length, currentDate, currentReview, month, day, review, rows);
    WalkPlace(reviews, first, last, length, currentDate, currentReview, month, day, review, rows, ends);
    WalkCorrect(reviews, first, last, length, currentDate, next, month, day, review + 1,
                rows[month := rows[month][d := rows[month][d] + [currentReview]]], ends, result);
  }

  lemma {:induction false} CorrectNewMonth(reviews: seq<Review>, first: Date, last: Date, length: int, currentDate: Date,
      currentReview: Review, month: int, day: int, review: int,
      rows: seq<seq<seq<Review>>>, ends: seq<Date>, result: seq<seq<seq<Review>>>)
    requires Walk(reviews, first, last, length, currentDate, currentReview, month, day, review, rows, ends) == true
    requires WalkShape(reviews, length, currentDate, currentReview, month, day, review, rows)
    requires result == Walked(reviews, length, currentDate, currentReview, month, day, review, rows)
    requires !(review < |reviews| && InCurrentDay(currentDate, currentReview))
    requires day + 1 < length && NextDay(currentDate).day == 1
    ensures ByMonthResult(result, first, last, reviews)
    decreases |reviews| - review + length - day, 0
  {
    var rows1 := rows + [[]];
    AdvanceStep(reviews, length, currentDate, currentReview, month, day, review, rows);
    WalkNewMonth(reviews, first, last, length, currentDate, currentReview, month, day, review, rows, ends);
    WalkCorrect(reviews, first, last, length, NextDay(currentDate), currentReview, month + 1, day + 1, review,
                rows1[month + 1 := rows1[month + 1] + [[]]], ends + [currentDate], result);
  }

  lemma {:induction false} CorrectNewSlot(reviews: seq<Review>, first: Date, last: Date, length: int, currentDate: Date,
      currentReview: Review, month: int, day: int, review: int,
      rows: seq<seq<seq<Review>>>, ends: seq<Date>, result: seq<seq<seq<Review>>>)
    requires Walk(reviews, first, last, length, currentDate, currentReview, month, day, review, rows, ends) == true
    requires WalkShape(reviews, length, currentDate, currentReview, month, day, review, rows)
    requires result == Walked(reviews, length, currentDate, currentReview, month, day, review, rows)
    requires !(review < |reviews| && InCurrentDay(currentDate, currentReview))
    requires day + 1 < length && NextDay(currentDate).day != 1
    ensures ByMonthResult(result, first, last, reviews)
    decreases |reviews| - review + length - day, 0
  {
    AdvanceStep(reviews, length, currentDate, currentReview, month, day, review, rows);
    WalkNewSlot(reviews, first, last, length, currentDate, currentReview, month, day, review, rows, ends);
    WalkCorrect(reviews, first, last, length, NextDay(currentDate), currentReview, month, day + 1, review,
                rows[month := rows[month] + [[]]], ends, result);
  }

  lemma WalkPlace(reviews: seq<Review>, first: Date, last: Date, length: int, currentDate: Date,
                  currentReview: Review, month: int, day: int, review: int,
                  rows: seq<seq<seq<Review>>>, ends: seq<Date>)
    requires Walk(reviews, first, last, length, currentDate, currentReview, month, day, review, rows, ends) == true
    requires review < |reviews| && InCurrentDay(currentDate, currentReview)
    ensures var next := if review + 1 < |reviews| then reviews[review + 1] else currentReview;
            var d := currentDate.day - 1;
            Walk(reviews, first, last, length, currentDate, next, month, day, review + 1,
                 rows[month := rows[month][d := rows[month][d] + [currentReview]]], ends) == true
  {
    var dn := DayNumber(first) + day;
    var next := if review + 1 < |reviews| then reviews[review + 1] else currentReview;
    NextDayNumber(currentDate);
    InsideDay(InstantOf(currentReview), dn);
    CalendarPlace(first, length, currentDate, month, day, rows, ends, currentReview);
    ProgressPlace(reviews, first, last, dn, review, rows, month, currentDate.day - 1, next);
  }

  lemma CalendarPlace(first: Date, length: int, currentDate: Date, month: int, day: int,
                      rows: seq<seq<seq<Review>>>, ends: seq<Date>, x: Review)
    requires ValidDate(first) && WalkCalendar(first, length, currentDate, month, day, rows, ends)
    requires Parsed(x) && !AtUtcMidnight(x) && UtcDay(x) == DayNumber(currentDate)
    ensures WalkCalendar(first, length, currentDate, month, day,
                         rows[month := rows[month][currentDate.day - 1 := rows[month][currentDate.day - 1] + [x]]], ends)
  {
    PlaceKeepsSlots(rows, MonthIndex(first), month, currentDate.day - 1, x, currentDate);
    PlaceKeepsRows(rows, month, currentDate.day - 1, x);
  }

  lemma ProgressPlace(reviews: seq<Review>, first: Date, last: Date, dn: int, review: int,
                      rows: seq<seq<seq<Review>>>, month: int, d: int, next: Review)
    requires (forall r <- reviews :: Parsed(r)) && ValidDate(first) && ValidDate(last)
    requires 0 <= review < |reviews| && WalkProgress(reviews, first, last, dn, reviews[review], review, rows)
    requires UtcDay(reviews[review]) == dn && !AtUtcMidnight(reviews[review])
    requires DayNumber(first) <= dn <= DayNumber(last)
    requires month == |rows| - 1 && month >= 0 && d == |rows[month]| - 1 && d >= 0
    requires Parsed(next) && (review + 1 < |reviews| ==> next == reviews[review + 1])
    ensures WalkProgress(reviews, first, last, dn, next, review + 1,
                         rows[month := rows[month][d := rows[month][d] + [reviews[review]]]])
  {
    assert Placeable(reviews, review, first, last);
    FlattenPlace(rows, month, d, reviews[review], reviews, review);
  }

  lemma WalkNewSlot(reviews: seq<Review>, first: Date, last: Date, length: int, currentDate: Date,
                    currentReview: Review, month: int, day: int, review: int,
                    rows: seq<seq<seq<Review>>>, ends: seq<Date>)
    requires Walk(reviews, first, last, length, currentDate, currentReview, month, day, review, rows, ends) == true
    requires !(review < |reviews| && InCurrentDay(currentDate, currentReview))
    requires day + 1 < length && NextDay(currentDate).day != 1
    ensures Walk(reviews, first, last, length, NextDay(currentDate), currentReview, month, day + 1, review,
                 rows[month := rows[month] + [[]]], ends)
  {
    NextDayNumber(currentDate);
    NewSlotKeepsSlots(rows, MonthIndex(first), month);
    NewSlotKeepsRows(rows, month);
    FlattenNewSlot(rows, month);
    ProgressAdvance(reviews, first, last, DayNumber(first) + day, currentReview, review, rows, rows[month := rows[month] + [[]]]);
  }

  lemma WalkNewMonth(reviews: seq<Review>, first: Date, last: Date, length: int, currentDate: Date,
                     currentReview: Review, month: int, day: int, review: int,
                     rows: seq<seq<seq<Review>>>, ends: seq<Date>)
    requires Walk(reviews, first, last, length, currentDate, currentReview, month, day, review, rows, ends) == true
    requires !(review < |reviews| && InCurrentDay(currentDate, currentReview))
    requires day + 1 < length && NextDay(currentDate).day == 1
    ensures Walk(reviews, first, last, length, NextDay(currentDate), currentReview, month + 1, day + 1, review,
                 (rows + [[]])[month + 1 := (rows + [[]])[month + 1] + [[]]], ends + [currentDate])
  {
    NextDayNumber(currentDate);
    var m0 := MonthIndex(first);
    EndMonth(rows, m0, month, ends, currentDate);
    NewMonthKeepsSlots(rows, m0);
    FlattenNewMonth(rows);
    var rows1 := rows + [[]];
    NewSlotKeepsSlots(rows1, m0, month + 1);
    NewSlotKeepsRows(rows1, month + 1);
    FlattenNewSlot(rows1, month + 1);
    ProgressAdvance(reviews, first, last, DayNumber(first) + day, currentReview, review, rows, rows1[month + 1 := rows1[month + 1] + [[]]]);
  }

  /** Moving to the next day keeps the facts about the reviews, since the
      current review, not inside the day just left, is not in an earlier one. */
  lemma ProgressAdvance(reviews: seq<Review>, first: Date, last: Date, dn: int, currentReview: Review,
                        review: int, rows: seq<seq<seq<Review>>>, rows': seq<seq<seq<Review>>>)
    requires (forall r <- reviews :: Parsed(r)) && ValidDate(first) && ValidDate(last)
    requires WalkProgress(reviews, first, last, dn, currentReview, review, rows)
    requires !(review < |reviews| && 0 < (dn + 1) * SecondsPerDay - InstantOf(currentReview) < SecondsPerDay)
    requires Flatten(rows') == Flatten(rows)
    ensures WalkProgress(reviews, first, last, dn + 1, currentReview, review, rows')
  {
    if review < |reviews| && Placeable(reviews, review, first, last) {
      LaterDay(InstantOf(currentReview), dn);
    }
  }

  /** The day pointer has passed the last day: the rows are the result. */
  lemma WalkDone(reviews: seq<Review>, first: Date, last: Date, length: int, currentDate: Date,
                 currentReview: Review, month: int, day: int, review: int,
                 rows: seq<seq<seq<Review>>>, ends: seq<Date>)
    requires Walk(reviews, first, last, length, currentDate, currentReview, month, day, review, rows, ends) == true
    requires !(review < |reviews| && InCurrentDay(currentDate, currentReview))
    requires day + 1 == length
    ensures ByMonthResult(rows, first, last, reviews)
  {
    var m0 := MonthIndex(first);
    DayNumberInjective(currentDate, last);
    EndMonth(rows, m0, month, ends, currentDate);
    ShapedFromEnds(rows, m0, ends + [currentDate]);
    NextDayNumber(currentDate);
    ProgressAdvance(reviews, first, last, DayNumber(first) + day, currentReview, review, rows, rows);
  }

  /** An instant strictly inside UTC day `dn` is at most a day before the next midnight. */
  lemma InsideDay(t: int, dn: int)
    requires 0 < (dn + 1) * SecondsPerDay - t < SecondsPerDay
    ensures t / SecondsPerDay == dn && t % SecondsPerDay != 0
  {
  }

  /** An instant not inside UTC day `dn`, not at a midnight and not in an
      earlier day, lies in a later day. */
  lemma LaterDay(t: int, dn: int)
    requires dn <= t / SecondsPerDay && t % SecondsPerDay != 0
    requires !(0 < (dn + 1) * SecondsPerDay - t < SecondsPerDay)
    ensures dn < t / SecondsPerDay
  {
  }

  lemma FlattenMonthPlace(days: seq<seq<Review>>, d: int, x: Review)
    requires d == |days| - 1 && d >= 0
    ensures FlattenMonth(days[d := days[d] + [x]]) == FlattenMonth(days) + [x]
  {
    var days' := days[d := days[d] + [x]];
    assert days'[..|days'| - 1] == days[..|days| - 1];
  }

  lemma FlattenPlace(months: seq<seq<seq<Review>>>, m: int, d: int, x: Review, reviews: seq<Review>, n: int)
    requires m == |months| - 1 && m >= 0 && d == |months[m]| - 1 && d >= 0
    requires 0 <= n < |reviews| && x == reviews[n] && Flatten(months) == reviews[..n]
    ensures Flatten(months[m := months[m][d := months[m][d] + [x]]]) == reviews[..n + 1]
  {
    var months' := months[m := months[m][d := months[m][d] + [x]]];
    assert months'[..|months'| - 1] == months[..|months| - 1];
    FlattenMonthPlace(months[m], d, x);
    assert reviews[..n + 1] == reviews[..n] + [x];
  }

  lemma FlattenNewMonth(months: seq<seq<seq<Review>>>)
    ensures Flatten(months + [[]]) == Flatten(months)
  {
    assert (months + [[]])[..|months|] == months;
  }

  lemma FlattenNewSlot(months: seq<seq<seq<Review>>>, m: int)
    requires m == |months| - 1 && m >= 0
    ensures Flatten(months[m := months[m] + [[]]]) == Flatten(months)
  {
    var months' := months[m := months[m] + [[]]];
    assert months'[..|months'| - 1] == months[..|months| - 1];
    assert (months[m] + [[]])[..|months[m]|] == months[m];
  }

  lemma DaysPlace(days: seq<seq<Review>>, mi: int, d: int, x: Review)
    requires d == |days| - 1 && d >= 0 && DaysAgree(days, mi) && InSlot(x, mi, d)
    ensures DaysAgree(days[d := days[d] + [x]], mi)
  {
    var days' := days[d := days[d] + [x]];
    assert days'[..|days'| - 1] == days[..|days| - 1];
  }

  /** Appending `x`, which lies inside UTC day `date`, to the slot of `date` keeps every review in its own slot. */
  lemma PlaceKeepsSlots(months: seq<seq<seq<Review>>>, m0: int, m: int, d: int, x: Review, date: Date)
    requires m == |months| - 1 && m >= 0 && d == |months[m]| - 1 && d >= 0
    requires ValidDate(date) && MonthIndex(date) == m0 + m && date.day == d + 1
    requires Parsed(x) && !AtUtcMidnight(x) && UtcDay(x) == DayNumber(date)
    requires SlotsAgree(months, m0)
    ensures SlotsAgree(months[m := months[m][d := months[m][d] + [x]]], m0)
  {
    MonthDateOf(date);
    assert InSlot(x, m0 + m, d);
    var months' := months[m := months[m][d := months[m][d] + [x]]];
    assert months'[..|months'| - 1] == months[..|months| - 1];
    DaysPlace(months[m], m0 + m, d, x);
  }

  lemma NewMonthKeepsSlots(months: seq<seq<seq<Review>>>, m0: int)
    requires SlotsAgree(months, m0)
    ensures SlotsAgree(months + [[]], m0)
  {
    assert (months + [[]])[..|months|] == months;
  }

  lemma NewSlotKeepsSlots(months: seq<seq<seq<Review>>>, m0: int, m: int)
    requires m == |months| - 1 && m >= 0 && SlotsAgree(months, m0)
    ensures SlotsAgree(months[m := months[m] + [[]]], m0)
  {
    var months' := months[m := months[m] + [[]]];
    assert months'[..|months'| - 1] == months[..|months| - 1];
    var days' := months[m] + [[]];
    assert days'[..|days'| - 1] == months[m];
  }

  /** `row` is the finished row of the month ending on `end`, whose index is `mi`. */
  predicate RowEndsAt(row: seq<seq<Review>>, end: Date, mi: int) {
    ValidDate(end) && MonthIndex(end) == mi && |row| == DaysInMonth(end.year, end.month)
  }

  /** Row `i` of `rows` is the finished row of the month ending on `ends[i]`, with index `m0 + i`. */
  predicate RowsEndAt(rows: seq<seq<seq<Review>>>, ends: seq<Date>, m0: int) {
    |rows| == |ends| && forall i :: 0 <= i < |rows| ==> RowEndsAt(rows[i], ends[i], m0 + i)
  }

  lemma PlaceKeepsRows(months: seq<seq<seq<Review>>>, m: int, d: int, x: Review)
    requires m == |months| - 1 && m >= 0 && 0 <= d < |months[m]|
    ensures months[m := months[m][d := months[m][d] + [x]]][..m] == months[..m]
  {
  }

  lemma NewSlotKeepsRows(months: seq<seq<seq<Review>>>, m: int)
    requires m == |months| - 1 && m >= 0
    ensures months[m := months[m] + [[]]][..m] == months[..m]
  {
  }

  /** Finishing the last row, the month ending on `end`. */
  lemma EndMonth(months: seq<seq<seq<Review>>>, m0: int, m: int, ends: seq<Date>, end: Date)
    requires m == |months| - 1 && m >= 0 && RowsEndAt(months[..m], ends, m0)
    requires ValidDate(end) && MonthIndex(end) == m0 + m && |months[m]| == end.day
    requires end.day == DaysInMonth(end.year, end.month)
    ensures RowsEndAt(months, ends + [end], m0) && (months + [[]])[..m + 1] == months
  {
    assert months == months[..m] + [months[m]];
  }

  lemma {:induction false} ShapedFromEnds(months: seq<seq<seq<Review>>>, m0: int, ends: seq<Date>)
    requires RowsEndAt(months, ends, m0)
    ensures Shaped(months, m0)
  {
    if months != [] {
      var n := |months| - 1;
      ShapedFromEnds(months[..n], m0, ends[..n]);
      assert RowEndsAt(months[n], ends[n], m0 + n);
      MonthDateOf(ends[n]);
    }
  }

  /** The figures `timeline` derives from the collected reviews before it
      calls `byMonth`: their number, the first and the last review's times,
      and the first of the first review's month at UTC midnight. */
  datatype Span = Span(reviewLength: nat, start: Time, finish: Time, startByMonth: Date)

  /** `None` where the source indexes the empty slice of collected reviews. */
  function SpanOf(reviews: seq<Review>): (s: Option<Span>)
    requires forall r <- reviews :: Parsed(r)
    ensures s.Some? <==> |reviews| > 0
    ensures s.Some? ==> Parsed(reviews[0]) && Parsed(reviews[|reviews| - 1]) &&
                        ValidTime(s.value.start) && ValidTime(s.value.finish) &&
                        s.value.reviewLength == |reviews| &&
                        s.value.start == reviews[0].readAt.time &&
                        s.value.finish == reviews[|reviews| - 1].readAt.time
    ensures s.Some? ==> var first := s.value.startByMonth;
                        ValidDate(first) && first.day == 1 &&
                        MonthIndex(first) == MonthIndex(s.value.start.date) &&
                        DayNumber(first) <= DayNumber(s.value.start.date)
  {
    if |reviews| == 0 then None
    else
      assert Parsed(reviews[0]) && Parsed(reviews[|reviews| - 1]);
      var start := reviews[0].readAt.time;
      var finish := reviews[|reviews| - 1].readAt.time;
      var startByMonth := Date(start.date.year, start.date.month, 1);
      Some(Span(|reviews|, start, finish, startByMonth))
  }

  /** The reviews come in the order they were read (the request asks for
      date read, ascending), so the first is not later than the last; with
      zone offsets under a day the two written dates are at most two days
      out of order, the start month is at most one month after the finish
      month, and the span meets what `byMonth` asks of its arguments. */
  lemma SpanFitsByMonth(reviews: seq<Review>)
    requires |reviews| > 0 && forall r <- reviews :: Parsed(r)
    requires Parsed(reviews[0]) && Parsed(reviews[|reviews| - 1])
    requires InstantOf(reviews[0]) <= InstantOf(reviews[|reviews| - 1])
    requires -SecondsPerDay < reviews[0].readAt.time.offset < SecondsPerDay
    requires -SecondsPerDay < reviews[|reviews| - 1].readAt.time.offset < SecondsPerDay
    ensures var s := SpanOf(reviews).value;
            ValidDate(s.startByMonth) && s.startByMonth.day == 1 && ValidTime(s.finish) &&
            MonthIndex(s.startByMonth) <= MonthIndex(s.finish.date) + 1
  {
    var a, b := reviews[0].readAt.time.date, reviews[|reviews| - 1].readAt.time.date;
    assert (DayNumber(a) - 1) * SecondsPerDay < InstantOf(reviews[0]);
    assert InstantOf(reviews[|reviews| - 1]) < (DayNumber(b) + 2) * SecondsPerDay;
    MonthWithinTwoDays(a, b);
  }

  /** A date at most two days after `b` is in `b`'s month or the next. */
  lemma MonthWithinTwoDays(a: Date, b: Date)
    requires ValidDate(a) && ValidDate(b) && DayNumber(a) <= DayNumber(b) + 2
    ensures MonthIndex(a) <= MonthIndex(b) + 1
  {
    NextDayNumber(b);
    NextDayNumber(NextDay(b));
    MonthIndexMonotone(a, NextDay(NextDay(b)));
  }

  /** With the finish month two or more months before the start month,
      `length` is below 1, so `day == length` never holds once `day` has been
      incremented and the loop of `byMonth` does not stop. */
  lemma ByMonthLengthNegative(first: Date, finish: Date, length: int)
    requires ValidDate(first) && first.day == 1 && ValidDate(finish) && MonthIndex(first) >= MonthIndex(finish) + 2
    requires length == Helpers.DaysBetween(Midnight(LastOfMonth(finish)) + SecondsPerDay - 1, Midnight(first)) + 1
    ensures length < 1
  {
    var last := LastOfMonth(finish);
    if DayNumber(first) <= DayNumber(last) + 2 {
      MonthWithinTwoDays(first, last);
    }
    var k := DayNumber(first) - DayNumber(last) - 1;
    assert Midnight(last) + SecondsPerDay - 1 == Midnight(first) - k * SecondsPerDay - 1;
    Helpers.DaysBetweenTruncates(Midnight(first), k, 1);
  }

  /** With the reviews in UTC-day order, none read at a UTC midnight and all
      inside the span, `byMonth` places every review exactly once, same-day
      reviews in input order. */
  lemma ByMonthPlacesAll(months: seq<seq<seq<Review>>>, first: Date, last: Date, reviews: seq<Review>)
    requires ValidDate(first) && ValidDate(last) && forall r <- reviews :: Parsed(r)
    requires ByMonthResult(months, first, last, reviews)
    requires forall i :: 0 <= i < |reviews| ==>
               !AtUtcMidnight(reviews[i]) && DayNumber(first) <= UtcDay(reviews[i]) <= DayNumber(last)
    requires forall i :: 0 < i < |reviews| ==> UtcDay(reviews[i - 1]) <= UtcDay(reviews[i])
    ensures Flatten(months) == reviews
  {
    var n := |Flatten(months)|;
    if n < |reviews| {
      assert Placeable(reviews, n, first, last);
    }
    assert reviews[..|reviews|] == reviews;
  }

  /** Every review `byMonth` holds lies strictly inside a UTC day of the span. */
  lemma PlacedWithinSpan(months: seq<seq<seq<Review>>>, first: Date, last: Date, reviews: seq<Review>)
    requires ValidDate(first) && ValidDate(last) && forall r <- reviews :: Parsed(r)
    requires ByMonthResult(months, first, last, reviews)
    ensures forall i :: 0 <= i < |Flatten(months)| ==>
              Parsed(reviews[i]) && !AtUtcMidnight(reviews[i]) &&
              DayNumber(first) <= UtcDay(reviews[i]) <= DayNumber(last)
  {
    forall i | 0 <= i < |Flatten(months)|
      ensures Parsed(reviews[i]) && !AtUtcMidnight(reviews[i]) && DayNumber(first) <= UtcDay(reviews[i]) <= DayNumber(last)
    {
      assert Placeable(reviews, i, first, last);
    }
  }

  /** A review read exactly at a UTC midnight is never placed, and neither is
      any review after it: `byMonth` holds at most the reviews before it. */
  lemma MidnightReviewBlocks(months: seq<seq<seq<Review>>>, first: Date, last: Date, reviews: seq<Review>, k: int)
    requires ValidDate(first) && ValidDate(last) && forall r <- reviews :: Parsed(r)
    requires ByMonthResult(months, first, last, reviews)
    requires 0 <= k < |reviews| && AtUtcMidnight(reviews[k])
    ensures |Flatten(months)| <= k
  {
    PlacedWithinSpan(months, first, last, reviews);
  }

  /** The first review falls on a UTC day before the span (its zone put it in
      a later month than UTC does): `byMonth` places nothing at all. */
  lemma EarlyFirstReviewPlacesNothing(months: seq<seq<seq<Review>>>, first: Date, last: Date, reviews: seq<Review>)
    requires ValidDate(first) && ValidDate(last) && forall r <- reviews :: Parsed(r)
    requires ByMonthResult(months, first, last, reviews)
    requires |reviews| > 0 && UtcDay(reviews[0]) < DayNumber(first)
    ensures Flatten(months) == []
  {
    PlacedWithinSpan(months, first, last, reviews);
  }
}
