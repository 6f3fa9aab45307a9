/** The records the Goodreads client hands to the application: users and
    reviews, with a review's `ReadAt` already parsed from its RubyDate text. */
module Goodreads {
  import opened Civil

  /** A time as `time.Parse(time.RubyDate, …)` (or Ruby's `strptime`) yields it:
      the civil date and the clock (seconds since local midnight) written in the
      text, and the zone offset written there (seconds east of UTC). */
  datatype Time = Time(date: Date, clock: int, offset: int)

  predicate ValidTime(t: Time) {
    ValidDate(t.date) && 0 <= t.clock < SecondsPerDay
  }

  /** The UTC instant of `t`, in seconds since 1970-01-01T00:00:00Z. */
  function Instant(t: Time): int
    requires ValidTime(t)
  {
    Midnight(t.date) + t.clock - t.offset
  }

  /** A review's `ReadAt` field: the empty text for a book shelved as read
      without a date, otherwise a parsed time. */
  datatype ReadAt = NoReadDate | ReadOn(time: Time)

  datatype Review = Review(title: string, pages: int, readAt: ReadAt)

  datatype User = User(id: string, name: string)

  /** The review's `ReadAt` text is non-empty and parses. */
  predicate Parsed(r: Review) {
    r.readAt.ReadOn? && ValidTime(r.readAt.time)
  }

  function InstantOf(r: Review): int
    requires Parsed(r)
  {
    Instant(r.readAt.time)
  }

  /** Day number of the UTC day holding the review's instant (floor division). */
  function UtcDay(r: Review): int
    requires Parsed(r)
  {
    InstantOf(r) / SecondsPerDay
  }

  /** The review was read exactly at a UTC midnight. */
  predicate AtUtcMidnight(r: Review)
    requires Parsed(r)
  {
    InstantOf(r) % SecondsPerDay == 0
  }

  /** In UTC (offset 0) the UTC day of a review is the date written in its text. */
  lemma UtcDayOfUtcTime(r: Review)
    requires Parsed(r) && r.readAt.time.offset == 0
    ensures UtcDay(r) == DayNumber(r.readAt.time.date)
    ensures AtUtcMidnight(r) <==> r.readAt.time.clock == 0
  {
  }

  /** The reviews that carry a read date, in their order: what the timeline
      collection keeps of each page, and what `reviews_by_date` files under a date. */
  function Dated(rs: seq<Review>): (d: seq<Review>)
    ensures |d| <= |rs|
  {
    if |rs| == 0 then []
    else Dated(rs[..|rs| - 1]) + (if rs[|rs| - 1].readAt.ReadOn? then [rs[|rs| - 1]] else [])
  }

  /** A review is kept exactly when it is among `rs` and carries a read date. */
  lemma {:induction false} DatedMembers(rs: seq<Review>, x: Review)
    ensures x in Dated(rs) <==> x in rs && x.readAt.ReadOn?
  {
    if |rs| > 0 {
      DatedMembers(rs[..|rs| - 1], x);
      assert rs == rs[..|rs| - 1] + [rs[|rs| - 1]];
    }
  }

  /** Filtering two runs of reviews one after the other keeps their order. */
  lemma {:induction false} DatedConcat(a: seq<Review>, b: seq<Review>)
    ensures Dated(a + b) == Dated(a) + Dated(b)
    decreases |b|
  {
    if |b| == 0 {
      assert a + b == a;
    } else {
      var b' := b[..|b| - 1];
      assert (a + b)[..|a + b| - 1] == a + b';
      DatedConcat(a, b');
    }
  }

  /** A page whose reviews all carry a read date is kept whole. */
  lemma {:induction false} DatedAllDated(rs: seq<Review>)
    requires forall r <- rs :: r.readAt.ReadOn?
    ensures Dated(rs) == rs
  {
    if |rs| > 0 {
      DatedAllDated(rs[..|rs| - 1]);
      assert rs == rs[..|rs| - 1] + [rs[|rs| - 1]];
    }
  }
}
