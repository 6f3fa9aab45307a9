/** The Ruby application's grouping of a user's reviews under the dates they
    were read (`Goodreads.reviews_by_date`), optionally filled out with empty
    days over the whole span, and the page arithmetic of `Goodreads.all_reviews`. */
module ByDate {
  import opened Civil
  import opened Goodreads

  /** `reviews_by_date`'s `fill` argument: `false`, `:day` or `:month` (any
      other true value behaves as `:day`). */
  datatype Fill = NoFill | FillDays | FillMonths

  /** Every non-empty `read_at` text parses with `DATE_FORMAT`. */
  predicate Parses(rs: seq<Review>) {
    forall r <- rs :: r.readAt.ReadOn? ==> ValidTime(r.readAt.time)
  }

  /** The date a dated review is filed under: `Date.strptime` keeps the civil
      date written in the text and ignores the time and the zone. */
  function DateOf(r: Review): Date
    requires r.readAt.ReadOn?
  {
    r.readAt.time.date
  }

  /** One pass of the loop: `by_date[date] ||= []; by_date[date] << review`,
      skipped for a review without a read date. */
  function File(m: map<Date, seq<Review>>, r: Review): map<Date, seq<Review>> {
    if r.readAt.NoReadDate? then m
    else m[DateOf(r) := (if DateOf(r) in m then m[DateOf(r)] else []) + [r]]
  }

  /** The hash after the loop has gone over all of `rs`. */
  function Grouped(rs: seq<Review>): map<Date, seq<Review>> {
    if |rs| == 0 then map[] else File(Grouped(rs[..|rs| - 1]), rs[|rs| - 1])
  }

  /** Reference definition: the reviews of `rs` read on `d`, in their order. */
  function ReadOnDate(rs: seq<Review>, d: Date): (s: seq<Review>)
    ensures forall x <- s :: x in rs && x.readAt.ReadOn? && DateOf(x) == d
  {
    if |rs| == 0 then []
    else
      var r := rs[|rs| - 1];
      ReadOnDate(rs[..|rs| - 1], d) + (if r.readAt.ReadOn? && DateOf(r) == d then [r] else [])
  }

  /** A review is in `ReadOnDate(rs, d)` exactly when it is in `rs` and was read on `d`. */
  lemma {:induction false} ReadOnDateMembers(rs: seq<Review>, d: Date, x: Review)
    ensures x in ReadOnDate(rs, d) <==> x in rs && x.readAt.ReadOn? && DateOf(x) == d
  {
    if |rs| > 0 {
      ReadOnDateMembers(rs[..|rs| - 1], d, x);
      assert rs == rs[..|rs| - 1] + [rs[|rs| - 1]];
    }
  }

  /** The keys of the grouping are exactly the read dates, and under each key
      sit the reviews read that day, in the order they came. */
  lemma {:induction false} GroupedByDate(rs: seq<Review>, d: Date)
    ensures d in Grouped(rs) <==> ReadOnDate(rs, d) != []
    ensures d in Grouped(rs) ==> Grouped(rs)[d] == ReadOnDate(rs, d)
  {
    if |rs| > 0 {
      GroupedByDate(rs[..|rs| - 1], d);
    }
  }

  /** Without filling, no date maps to an empty list. */
  lemma GroupedNonEmpty(rs: seq<Review>, d: Date)
    requires d in Grouped(rs)
    ensures |Grouped(rs)[d]| > 0
  {
    GroupedByDate(rs, d);
  }

  /** Every key of the grouping is a valid date when the texts parse. */
  lemma {:induction false} GroupedKeysValid(rs: seq<Review>)
    requires Parses(rs)
    ensures forall d <- Grouped(rs) :: ValidDate(d)
  {
    if |rs| > 0 {
      assert Parses(rs[..|rs| - 1]) by {
        forall r <- rs[..|rs| - 1] ensures r in rs { }
      }
      GroupedKeysValid(rs[..|rs| - 1]);
    }
  }

  /** Reviews without a read date file nothing. */
  lemma {:induction false} GroupedUndated(rs: seq<Review>)
    requires Dated(rs) == []
    ensures Grouped(rs) == map[]
  {
    if |rs| > 0 {
      GroupedUndated(rs[..|rs| - 1]);
    }
  }

  /** The number of reviews held in a hash of lists. */
  ghost function Total(m: map<Date, seq<Review>>): nat
    decreases |m|
  {
    if m == map[] then 0
    else
      var d :| d in m;
      |m[d]| + Total(m - {d})
  }

  /** `Total` does not depend on which key is taken first. */
  lemma {:induction false} TotalWithout(m: map<Date, seq<Review>>, k: Date)
    requires k in m
    ensures Total(m) == |m[k]| + Total(m - {k})
    decreases |m|
  {
    var d :| d in m && Total(m) == |m[d]| + Total(m - {d});
    if d != k {
      TotalWithout(m - {d}, k);
      TotalWithout(m - {k}, d);
      assert m - {d} - {k} == m - {k} - {d};
    }
  }

  /** Filing one review adds one to the total exactly when it carries a date. */
  lemma FileTotal(m: map<Date, seq<Review>>, r: Review)
    ensures Total(File(m, r)) == Total(m) + (if r.readAt.ReadOn? then 1 else 0)
  {
    if r.readAt.ReadOn? {
      var d := DateOf(r);
      var f := File(m, r);
      TotalWithout(f, d);
      assert f - {d} == m - {d};
      if d in m {
        TotalWithout(m, d);
      } else {
        assert m - {d} == m;
      }
    }
  }

  /** Every review with a read date is filed once: the lists add up to the
      number of dated reviews. */
  lemma {:induction false} GroupedTotal(rs: seq<Review>)
    ensures Total(Grouped(rs)) == |Dated(rs)|
  {
    if |rs| > 0 {
      GroupedTotal(rs[..|rs| - 1]);
      FileTotal(Grouped(rs[..|rs| - 1]), rs[|rs| - 1]);
    }
  }

  /** `by_date.keys.min`: the earliest read date. */
  function Earliest(rs: seq<Review>): (k: Date)
    requires Parses(rs) && Dated(rs) != []
    ensures k in Grouped(rs) && ValidDate(k)
    ensures forall d <- Grouped(rs) :: ValidDate(d) && DayNumber(k) <= DayNumber(d)
  {
    GroupedKeysValid(rs);
    var init, r := rs[..|rs| - 1], rs[|rs| - 1];
    assert Parses(init) by {
      forall x <- init ensures x in rs { }
    }
    if r.readAt.NoReadDate? then Earliest(init)
    else if Dated(init) == [] then
      GroupedUndated(init);
      DateOf(r)
    else
      var e := Earliest(init);
      if DayNumber(DateOf(r)) < DayNumber(e) then DateOf(r) else e
  }

  /** `by_date.keys.max`: the latest read date. */
  function Latest(rs: seq<Review>): (k: Date)
    requires Parses(rs) && Dated(rs) != []
    ensures k in Grouped(rs) && ValidDate(k)
    ensures forall d <- Grouped(rs) :: ValidDate(d) && DayNumber(d) <= DayNumber(k)
  {
    GroupedKeysValid(rs);
    var init, r := rs[..|rs| - 1], rs[|rs| - 1];
    assert Parses(init) by {
      forall x <- init ensures x in rs { }
    }
    if r.readAt.NoReadDate? then Latest(init)
    else if Dated(init) == [] then
      GroupedUndated(init);
      DateOf(r)
    else
      var e := Latest(init);
      if DayNumber(e) < DayNumber(DateOf(r)) then DateOf(r) else e
  }

  /** The first day filled: the earliest date, or the first of its month. */
  function FillStart(rs: seq<Review>, fill: Fill): Date
    requires Parses(rs) && Dated(rs) != []
  {
    var e := Earliest(rs);
    if fill == FillMonths then Date(e.year, e.month, 1) else e
  }

  /** The last day filled: the latest date, or the last day of its month. */
  function FillEnd(rs: seq<Review>, fill: Fill): Date
    requires Parses(rs) && Dated(rs) != []
  {
    var l := Latest(rs);
    if fill == FillMonths then LastOfMonth(l) else l
  }

  /** The filled span starts on a valid day no later than any read date and
      ends on a valid day no earlier than any; for `:month` it runs from the
      first of the earliest month to the last of the latest one. */
  lemma FillBounds(rs: seq<Review>, fill: Fill)
    requires Parses(rs) && Dated(rs) != []
    ensures ValidDate(FillStart(rs, fill)) && ValidDate(FillEnd(rs, fill))
    ensures forall d <- Grouped(rs) :: DayNumber(FillStart(rs, fill)) <= DayNumber(d) <= DayNumber(FillEnd(rs, fill))
    ensures fill == FillMonths ==>
              FillStart(rs, fill) == Date(Earliest(rs).year, Earliest(rs).month, 1) &&
              FillEnd(rs, fill) == Date(Latest(rs).year, Latest(rs).month, DaysInMonth(Latest(rs).year, Latest(rs).month))
    ensures fill != FillMonths ==> FillStart(rs, fill) == Earliest(rs) && FillEnd(rs, fill) == Latest(rs)
  {
  }

  /** `by_date[date] ||= []`: a missing day gets an empty list. */
  function Touch(m: map<Date, seq<Review>>, d: Date): map<Date, seq<Review>> {
    if d in m then m else m[d := []]
  }

  /** The hash after `by_date[date] ||= []` for the `n` days from `start` on. */
  function FillFrom(m: map<Date, seq<Review>>, start: Date, n: nat): map<Date, seq<Review>>
    requires ValidDate(start)
    decreases n
  {
    if n == 0 then m
    else
      NextDayNumber(start);
      FillFrom(Touch(m, start), NextDay(start), n - 1)
  }

  /** Filling adds exactly the `n` days from `start` that are missing, each
      with an empty list, and leaves every existing entry as it was. */
  lemma {:induction false} FillFromSpec(m: map<Date, seq<Review>>, start: Date, n: nat, d: Date)
    requires ValidDate(start)
    ensures d in FillFrom(m, start, n) <==> d in m || (ValidDate(d) && 0 <= DayNumber(d) - DayNumber(start) < n)
    ensures d in m ==> FillFrom(m, start, n)[d] == m[d]
    ensures d in FillFrom(m, start, n) && d !in m ==> FillFrom(m, start, n)[d] == []
    decreases n
  {
    if n > 0 {
      NextDayNumber(start);
      FillFromSpec(Touch(m, start), NextDay(start), n - 1, d);
      if ValidDate(d) && DayNumber(d) == DayNumber(start) {
        DayNumberInjective(d, start);
      }
    }
  }

  /** Filling adds only empty lists, so no review is gained or lost. */
  lemma {:induction false} FillFromTotal(m: map<Date, seq<Review>>, start: Date, n: nat)
    requires ValidDate(start)
    ensures Total(FillFrom(m, start, n)) == Total(m)
    decreases n
  {
    if n > 0 {
      NextDayNumber(start);
      FillFromTotal(Touch(m, start), NextDay(start), n - 1);
      if start !in m {
        TotalWithout(m[start := []], start);
        assert m[start := []] - {start} == m;
      }
    }
  }

  /** The hash `reviews_by_date` returns, as a function of its arguments. */
  function ByDate(rs: seq<Review>, fill: Fill): map<Date, seq<Review>>
    requires Parses(rs) && (fill != NoFill ==> Dated(rs) != [])
  {
    if fill == NoFill then Grouped(rs)
    else
      FillBounds(rs, fill);
      FillFrom(Grouped(rs), FillStart(rs, fill), SpanDays(FillStart(rs, fill), FillEnd(rs, fill)))
  }

  /** The number of days from `start` to `end`, both included, that the fill
      loop `start_date.upto(end_date)` visits. */
  function SpanDays(start: Date, end: Date): int
    requires ValidDate(start) && ValidDate(end)
  {
    DayNumber(end) - DayNumber(start) + 1
  }

  /** With filling, the keys are exactly the days from the fill start to the
      fill end. */
  lemma FilledKeys(rs: seq<Review>, fill: Fill, d: Date)
    requires Parses(rs) && fill != NoFill && Dated(rs) != []
    ensures ValidDate(FillStart(rs, fill)) && ValidDate(FillEnd(rs, fill))
    ensures d in ByDate(rs, fill) <==> ValidDate(d) && DayNumber(FillStart(rs, fill)) <= DayNumber(d) <= DayNumber(FillEnd(rs, fill))
  {
    FillBounds(rs, fill);
    var g, start, end := Grouped(rs), FillStart(rs, fill), FillEnd(rs, fill);
    assert ByDate(rs, fill) == FillFrom(g, start, SpanDays(start, end));
    FillFromSpec(g, start, SpanDays(start, end), d);
    if d in g {
      assert ValidDate(d) && DayNumber(start) <= DayNumber(d) <= DayNumber(end);
    }
  }

  /** With filling, a day read on keeps its reviews and every other day of
      the span has an empty list. */
  lemma FilledValues(rs: seq<Review>, fill: Fill, d: Date)
    requires Parses(rs) && fill != NoFill && Dated(rs) != [] && d in ByDate(rs, fill)
    ensures ByDate(rs, fill)[d] == ReadOnDate(rs, d)
  {
    FillBounds(rs, fill);
    var g, start, end := Grouped(rs), FillStart(rs, fill), FillEnd(rs, fill);
    assert ByDate(rs, fill) == FillFrom(g, start, SpanDays(start, end));
    FillFromSpec(g, start, SpanDays(start, end), d);
    GroupedByDate(rs, d);
  }

  /** Filling gains and loses no review: the lists still add up to the
      number of dated reviews. */
  lemma FilledTotal(rs: seq<Review>, fill: Fill)
    requires Parses(rs) && (fill != NoFill ==> Dated(rs) != [])
    ensures Total(ByDate(rs, fill)) == |Dated(rs)|
  {
    GroupedTotal(rs);
    if fill != NoFill {
      FillBounds(rs, fill);
      var g, start, end := Grouped(rs), FillStart(rs, fill), FillEnd(rs, fill);
      assert ByDate(rs, fill) == FillFrom(g, start, SpanDays(start, end));
      FillFromTotal(g, start, SpanDays(start, end));
    }
  }

  /** The loop's step: the hash for one more review is the old one with that
      review filed. */
  lemma GroupedStep(rs: seq<Review>, i: int)
    requires 0 <= i < |rs|
    ensures Grouped(rs[..i + 1]) == File(Grouped(rs[..i]), rs[i])
  {
    assert rs[..i + 1][..i] == rs[..i];
  }

  /** `Goodreads.reviews_by_date`: files each dated review under its date and,
      when asked, adds an empty list for every missing day of the span. With
      `fill` set and no dated review, Ruby fails on `nil.upto`/`nil.year`. */
  method ReviewsByDate(reviews: seq<Review>, fill: Fill) returns (byDate: map<Date, seq<Review>>)
    requires Parses(reviews)
    requires fill != NoFill ==> Dated(reviews) != []
    ensures byDate == ByDate(reviews, fill)
  {
    byDate := map[];
    for i := 0 to |reviews|
      invariant byDate == Grouped(reviews[..i])
    {
      GroupedStep(reviews, i);
      var review := reviews[i];
      if review.readAt.NoReadDate? {
        continue;
      }
      var date := review.readAt.time.date;
      if date !in byDate {
        byDate := byDate[date := []];
      }
      byDate := byDate[date := byDate[date] + [review]];
    }
    assert reviews[..|reviews|] == reviews;

    if fill != NoFill {
      var startDate := Earliest(reviews);
      var endDate := Latest(reviews);
      if fill == FillMonths {
        startDate := Date(startDate.year, startDate.month, 1);
        endDate := LastOfMonth(endDate);
      }
      FillBounds(reviews, fill);
      byDate := FillSpan(byDate, startDate, endDate);
    }
  }

  /** `start_date.upto(end_date) {|date| by_date[date] ||= []}`. */
  method FillSpan(m: map<Date, seq<Review>>, startDate: Date, endDate: Date) returns (byDate: map<Date, seq<Review>>)
    requires ValidDate(startDate) && ValidDate(endDate) && DayNumber(startDate) <= DayNumber(endDate)
    ensures byDate == FillFrom(m, startDate, SpanDays(startDate, endDate))
  {
    byDate := m;
    var date := startDate;
    NextDayNumber(endDate);
    while DayNumber(date) <= DayNumber(endDate)
      invariant ValidDate(date) && DayNumber(startDate) <= DayNumber(date) <= DayNumber(endDate) + 1
      invariant FillFrom(byDate, date, SpanDays(date, endDate)) == FillFrom(m, startDate, SpanDays(startDate, endDate))
      decreases DayNumber(endDate) - DayNumber(date)
    {
      NextDayNumber(date);
      byDate := Touch(byDate, date);
      date := NextDay(date);
    }
  }

  /** `PAGE_SIZE`: reviews per page of the review list. */
  const PageSize: nat := 200

  /** `(total / PAGE_SIZE.to_f).ceil`: the fewest pages that hold `total` reviews. */
  function PageCount(total: nat): (n: nat)
    ensures PageSize * n >= total
    ensures n > 0 ==> PageSize * (n - 1) < total
  {
    (total + PageSize - 1) / PageSize
  }

  /** The pages `all_reviews` asks for after the first: `2.upto(pages)` when
      the first page's `end` differs from `total`, none otherwise. */
  function ExtraPages(end: nat, total: nat): (ps: seq<nat>)
    ensures forall i :: 0 <= i < |ps| ==> ps[i] == i + 2
    ensures end != total ==> |ps| + 1 == PageCount(total) || (PageCount(total) < 2 && ps == [])
  {
    if end != total then PagesFrom(2, PageCount(total)) else []
  }

  /** `lo.upto(hi)` as a sequence. */
  function PagesFrom(lo: nat, hi: nat): (ps: seq<nat>)
    ensures |ps| == if hi < lo then 0 else hi - lo + 1
    ensures forall i :: 0 <= i < |ps| ==> ps[i] == lo + i
    decreases hi - lo + 1
  {
    if hi < lo then [] else [lo] + PagesFrom(lo + 1, hi)
  }

  /** Page `p` (from 1) holds the reviews `PageSize * (p - 1)` up to but not
      including `PageSize * p`. When the first page reports `end` as the
      number of reviews it holds, the first page and the extra pages hold
      every review, and each of them holds at least one. */
  lemma AllPagesFetched(end: nat, total: nat)
    requires end == if total < PageSize then total else PageSize
    ensures forall i :: 0 <= i < total ==> i / PageSize + 1 == 1 || i / PageSize + 1 in ExtraPages(end, total)
    ensures forall p <- ExtraPages(end, total) :: PageSize * (p - 1) < total
  {
    var ps := ExtraPages(end, total);
    forall i | 0 <= i < total && i / PageSize + 1 != 1
      ensures i / PageSize + 1 in ps
    {
      assert ps[i / PageSize - 1] == i / PageSize + 1;
    }
  }

  /** A page of the review list as `list_page` returns it: the `end` and
      `total` attributes of its `<reviews>` element and the reviews in it. */
  datatype ReviewPage = ReviewPage(end: nat, total: nat, reviews: seq<Review>)

  /** The reviews of pages `ps`, one page after the other. */
  function Appended(listPage: nat -> ReviewPage, ps: seq<nat>): seq<Review> {
    if |ps| == 0 then [] else Appended(listPage, ps[..|ps| - 1]) + listPage(ps[|ps| - 1]).reviews
  }

  lemma AppendedStep(listPage: nat -> ReviewPage, i: nat)
    requires i >= 2
    ensures Appended(listPage, PagesFrom(2, i)) == Appended(listPage, PagesFrom(2, i - 1)) + listPage(i).reviews
  {
    var ps := PagesFrom(2, i);
    assert ps[..|ps| - 1] == PagesFrom(2, i - 1);
  }

  /** `Goodreads.all_reviews`: the first page, then, when it does not end at
      the last review, every further page appended in order. `listPage(p)`
      stands for fetching page `p` of the user's read shelf. */
  method AllReviews(listPage: nat -> ReviewPage) returns (reviews: seq<Review>)
    ensures reviews == listPage(1).reviews + Appended(listPage, ExtraPages(listPage(1).end, listPage(1).total))
  {
    var first := listPage(1);
    reviews := first.reviews;
    if first.end != first.total {
      var pages := PageCount(first.total);
      var i := 2;
      while i <= pages
        invariant 2 <= i && (i <= pages + 1 || i == 2)
        invariant reviews == first.reviews + Appended(listPage, PagesFrom(2, i - 1))
      {
        AppendedStep(listPage, i);
        reviews := reviews + listPage(i).reviews;
        i := i + 1;
      }
    }
  }
}
