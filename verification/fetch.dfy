/** timeline.go: the read-through cache in front of the Goodreads API
    (`userShow`, `reviewPage`) and the loop that collects a user's read
    shelf page by page. */
module Fetch {
  import opened Goodreads
  import opened Wrappers

  /** Most reviews the API returns per page. */
  const PerPage: int := 200

  /** Pages are requested from 1 up to, but not including, this one. */
  const PageLimit: int := 100

  /** Cache keys. The application writes them as `"UserShow:<id>"` and
      `"ReviewList:<id>:<page>"`; the page goes through `%s`, which renders an
      int as `%!s(int=<page>)`, and the text is still different for every
      user and page, so the key is kept here as the pair it encodes. */
  datatype Key = UserShowKey(userId: string) | ReviewListKey(userId: string, page: int)

  /** A cached value. A profile comes back as a pointer when the entry was
      stored by this process and as a plain value when the cache was loaded
      from its file. */
  datatype Entry = UserRef(user: User) | UserValue(user: User) | ReviewList(reviews: seq<Review>)

  /** The arguments of one request to the API. */
  datatype Request =
    | UserShowRequest(userId: string)
    | ReviewListRequest(userId: string, shelf: string, sort: string, search: string,
                        order: string, page: int, perPage: int)

  /** The request `reviewPage` sends for a page: the `read` shelf, sorted by
      date read, ascending, 200 a page. */
  function PageRequest(userId: string, page: int): (q: Request)
    ensures q.ReviewListRequest? && q.userId == userId && q.page == page && q.perPage == PerPage
  {
    ReviewListRequest(userId, "read", "date_read", "", "a", page, PerPage)
  }

  /** Every entry has the kind its key asks for: profiles under `UserShow`
      keys, review lists under `ReviewList` keys. */
  predicate WellKeyed(items: map<Key, Entry>) {
    forall k <- items :: (k.UserShowKey? <==> !items[k].ReviewList?)
  }

  /** The in-memory cache: a dictionary from keys to entries. Expiry is not
      modelled; an entry once set stays. */
  class Cache {
    var items: map<Key, Entry>

    predicate Valid()
      reads this
    {
      WellKeyed(items)
    }

    constructor()
      ensures items == map[] && Valid()
    {
      items := map[];
    }

    /** `c.Set(key, value, …)`. */
    method Set(key: Key, e: Entry)
      requires Valid() && (key.UserShowKey? <==> !e.ReviewList?)
      modifies this
      ensures Valid() && items == old(items)[key := e]
    {
      items := items[key := e];
    }
  }

  /** The Goodreads API as this application sees it: a reply (a value or an
      error) for every request, and a record of the requests sent. */
  class Remote {
    const showUser: string -> Result<User>
    const listReviews: (string, int) -> Result<seq<Review>>
    ghost var sent: seq<Request>

    constructor(showUser: string -> Result<User>, listReviews: (string, int) -> Result<seq<Review>>)
      ensures this.showUser == showUser && this.listReviews == listReviews && sent == []
    {
      this.showUser := showUser;
      this.listReviews := listReviews;
      sent := [];
    }

    /** `client.UserShow(userId)`. */
    method UserShow(userId: string) returns (r: Result<User>)
      modifies this
      ensures r == showUser(userId) && sent == old(sent) + [UserShowRequest(userId)]
    {
      r := showUser(userId);
      sent := sent + [UserShowRequest(userId)];
    }

    /** `client.ReviewList(userId, "read", "date_read", "", "a", page, 200)`. */
    method ReviewList(userId: string, page: int) returns (r: Result<seq<Review>>)
      modifies this
      ensures r == listReviews(userId, page) && sent == old(sent) + [PageRequest(userId, page)]
    {
      r := listReviews(userId, page);
      sent := sent + [PageRequest(userId, page)];
    }
  }

  /** `userShow`: the cached profile, whichever way it is stored, without a
      request; otherwise the API's answer, cached only when it is a profile. */
  method UserShow(c: Cache, client: Remote, userId: string) returns (r: Result<User>)
    requires c.Valid()
    modifies c, client
    ensures c.Valid()
    ensures UserShowKey(userId) in old(c.items) ==>
              r == Success(old(c.items)[UserShowKey(userId)].user) &&
              c.items == old(c.items) && client.sent == old(client.sent)
    ensures UserShowKey(userId) !in old(c.items) ==>
              r == client.showUser(userId) && client.sent == old(client.sent) + [UserShowRequest(userId)] &&
              c.items == (if r.Success? then old(c.items)[UserShowKey(userId) := UserRef(r.value)] else old(c.items))
  {
    var key := UserShowKey(userId);
    if key in c.items {
      var fromCache := c.items[key];
      match fromCache {
        case UserRef(u) => r := Success(u);
        case UserValue(u) => r := Success(u);
      }
    } else {
      r := client.UserShow(userId);
      if r.Failure? {
        return;
      }
      c.Set(key, UserRef(r.value));
    }
  }

  /** `reviewPage`: the cached page without a request; otherwise the API's
      answer, cached only when it is a page. */
  method ReviewPage(c: Cache, client: Remote, userId: string, page: int) returns (r: Result<seq<Review>>)
    requires c.Valid()
    modifies c, client
    ensures c.Valid()
    ensures ReviewListKey(userId, page) in old(c.items) ==>
              r == Success(old(c.items)[ReviewListKey(userId, page)].reviews) &&
              c.items == old(c.items) && client.sent == old(client.sent)
    ensures ReviewListKey(userId, page) !in old(c.items) ==>
              r == client.listReviews(userId, page) && client.sent == old(client.sent) + [PageRequest(userId, page)] &&
              c.items == (if r.Success? then old(c.items)[ReviewListKey(userId, page) := ReviewList(r.value)] else old(c.items))
  {
    var key := ReviewListKey(userId, page);
    if key !in c.items {
      r := client.ReviewList(userId, page);
      if r.Failure? {
        return;
      }
      c.Set(key, ReviewList(r.value));
    } else {
      r := Success(c.items[key].reviews);
    }
  }

  /** What `reviewPage` yields for `page`, given the cache as it was before the
      collection started: collecting only ever writes the key of the page in
      hand, so later pages see the entries they saw at the start. (In a
      well-keyed cache every entry under a `ReviewList` key is a review list.) */
  function PageOf(items: map<Key, Entry>, listReviews: (string, int) -> Result<seq<Review>>,
                  userId: string, page: int): Result<seq<Review>>
  {
    var key := ReviewListKey(userId, page);
    if key in items && items[key].ReviewList? then Success(items[key].reviews) else listReviews(userId, page)
  }

  /** The dated reviews of pages `page`, `page + 1`, … up to the first empty
      page (or page 99), or the first error among them. */
  function Collected(items: map<Key, Entry>, listReviews: (string, int) -> Result<seq<Review>>,
                     userId: string, page: int): Result<seq<Review>>
    decreases PageLimit - page
  {
    if page >= PageLimit then Success([])
    else
      match PageOf(items, listReviews, userId, page)
      case Failure(e) => Failure(e)
      case Success(rs) =>
        if |rs| == 0 then Success([])
        else
          match Collected(items, listReviews, userId, page + 1)
          case Failure(e) => Failure(e)
          case Success(rest) => Success(Dated(rs) + rest)
  }

  /** Every review a successful collection returns carries a read date. */
  lemma {:induction false} CollectedDated(items: map<Key, Entry>, listReviews: (string, int) -> Result<seq<Review>>,
                                          userId: string, page: int)
    ensures Collected(items, listReviews, userId, page).Success? ==>
              forall r <- Collected(items, listReviews, userId, page).value :: r.readAt.ReadOn?
    decreases PageLimit - page
  {
    if page < PageLimit && PageOf(items, listReviews, userId, page).Success? {
      CollectedDated(items, listReviews, userId, page + 1);
      var rs := PageOf(items, listReviews, userId, page).value;
      forall x | x in Dated(rs) ensures x.readAt.ReadOn? {
        DatedMembers(rs, x);
      }
    }
  }

  /** An error on page `bad`, after non-empty pages from `page` on, is the
      collection's result. */
  lemma {:induction false} CollectedFails(items: map<Key, Entry>, listReviews: (string, int) -> Result<seq<Review>>,
                                          userId: string, page: int, bad: int)
    requires page <= bad < PageLimit && PageOf(items, listReviews, userId, bad).Failure?
    requires forall q :: page <= q < bad ==>
               PageOf(items, listReviews, userId, q).Success? && |PageOf(items, listReviews, userId, q).value| > 0
    ensures Collected(items, listReviews, userId, page) == PageOf(items, listReviews, userId, bad)
    decreases bad - page
  {
    if page < bad {
      CollectedFails(items, listReviews, userId, page + 1, bad);
    }
  }

  /** An empty page `stop`, after non-empty pages from `page` on, ends the
      collection: nothing after it is looked at. */
  lemma {:induction false} CollectedStops(items: map<Key, Entry>, items': map<Key, Entry>,
                                          listReviews: (string, int) -> Result<seq<Review>>,
                                          userId: string, page: int, stop: int)
    requires page <= stop < PageLimit
    requires PageOf(items, listReviews, userId, stop) == Success([])
    requires forall q :: page <= q <= stop ==> PageOf(items', listReviews, userId, q) == PageOf(items, listReviews, userId, q)
    ensures Collected(items, listReviews, userId, page) == Collected(items', listReviews, userId, page)
    decreases stop - page
  {
    if page < stop {
      CollectedStops(items, items', listReviews, userId, page + 1, stop);
    }
  }

  /** `acc` followed by a collection's reviews; an error stays an error. */
  function Prefixed(acc: seq<Review>, r: Result<seq<Review>>): Result<seq<Review>> {
    match r
    case Failure(e) => Failure(e)
    case Success(rs) => Success(acc + rs)
  }

  /** The page after the last one a collection starting at `page` asks
      for: the collection goes on while pages come back non-empty, and stops
      after the first page that fails or is empty, or after page 99. */
  function StopPage(items: map<Key, Entry>, listReviews: (string, int) -> Result<seq<Review>>,
                    userId: string, page: int): int
    decreases PageLimit - page
  {
    if page >= PageLimit then PageLimit
    else
      var r := PageOf(items, listReviews, userId, page);
      if r.Failure? || |r.value| == 0 then page + 1 else StopPage(items, listReviews, userId, page + 1)
  }

  /** A collection from `page` looks at the pages up to `StopPage`: all of
      them but the last come back non-empty, and the last fails or is empty
      unless the collection ran to page 99. */
  lemma {:induction false} StopPageSpec(items: map<Key, Entry>, listReviews: (string, int) -> Result<seq<Review>>,
                                        userId: string, page: int)
    requires page < PageLimit
    ensures page < StopPage(items, listReviews, userId, page) <= PageLimit
    ensures forall q :: page <= q < StopPage(items, listReviews, userId, page) - 1 ==>
              PageOf(items, listReviews, userId, q).Success? && |PageOf(items, listReviews, userId, q).value| > 0
    ensures StopPage(items, listReviews, userId, page) < PageLimit ==>
              var last := PageOf(items, listReviews, userId, StopPage(items, listReviews, userId, page) - 1);
              last.Failure? || |last.value| == 0
    decreases PageLimit - page
  {
    var r := PageOf(items, listReviews, userId, page);
    if r.Success? && |r.value| > 0 && page + 1 < PageLimit {
      StopPageSpec(items, listReviews, userId, page + 1);
    }
  }

  /** The requests for pages `lo` to `hi - 1` that find no entry in the cache
      `items`, in page order. */
  function Requests(items: map<Key, Entry>, userId: string, lo: int, hi: int): seq<Request>
    decreases hi - lo
  {
    if hi <= lo then []
    else Requests(items, userId, lo, hi - 1) + (if ReviewListKey(userId, hi - 1) in items then [] else [PageRequest(userId, hi - 1)])
  }

  /** Exactly one request for each page from `lo` to `hi - 1` missing from the
      cache, and none for any other page, in increasing page order. */
  lemma {:induction false} RequestsSpec(items: map<Key, Entry>, userId: string, lo: int, hi: int)
    ensures forall i :: 0 <= i < |Requests(items, userId, lo, hi)| ==>
              var q := Requests(items, userId, lo, hi)[i];
              q.ReviewListRequest? && q == PageRequest(userId, q.page) && lo <= q.page < hi &&
              ReviewListKey(userId, q.page) !in items
    ensures forall i, j :: 0 <= i < j < |Requests(items, userId, lo, hi)| ==>
              Requests(items, userId, lo, hi)[i].page < Requests(items, userId, lo, hi)[j].page
    ensures forall p :: lo <= p < hi && ReviewListKey(userId, p) !in items ==>
              PageRequest(userId, p) in Requests(items, userId, lo, hi)
    decreases hi - lo
  {
    if lo < hi {
      RequestsSpec(items, userId, lo, hi - 1);
    }
  }

  /** The cache `items` after pages `lo` to `hi - 1` went through `reviewPage`:
      each page missing from it whose request succeeded is added. */
  function Fetched(items: map<Key, Entry>, listReviews: (string, int) -> Result<seq<Review>>,
                   userId: string, lo: int, hi: int): map<Key, Entry>
    decreases hi - lo
  {
    if hi <= lo then items
    else
      var m := Fetched(items, listReviews, userId, lo, hi - 1);
      var key := ReviewListKey(userId, hi - 1);
      if key !in items && listReviews(userId, hi - 1).Success? then m[key := ReviewList(listReviews(userId, hi - 1).value)] else m
  }

  /** The entries present at the start stay as they were; the new ones are
      exactly the successful pages from `lo` to `hi - 1` that were missing,
      each holding what the API sent back. */
  lemma {:induction false} FetchedSpec(items: map<Key, Entry>, listReviews: (string, int) -> Result<seq<Review>>,
                                       userId: string, lo: int, hi: int)
    ensures forall k <- items :: k in Fetched(items, listReviews, userId, lo, hi) &&
                                 Fetched(items, listReviews, userId, lo, hi)[k] == items[k]
    ensures forall k <- Fetched(items, listReviews, userId, lo, hi) :: k in items ||
              (k.ReviewListKey? && k.userId == userId && lo <= k.page < hi && listReviews(userId, k.page).Success?)
    ensures forall p :: lo <= p < hi && ReviewListKey(userId, p) !in items && listReviews(userId, p).Success? ==>
              ReviewListKey(userId, p) in Fetched(items, listReviews, userId, lo, hi) &&
              Fetched(items, listReviews, userId, lo, hi)[ReviewListKey(userId, p)] == ReviewList(listReviews(userId, p).value)
    decreases hi - lo
  {
    if lo < hi {
      FetchedSpec(items, listReviews, userId, lo, hi - 1);
    }
  }

  /** A key outside the pages fetched so far is as it was at the start. */
  lemma {:induction false} FetchedOutside(items: map<Key, Entry>, listReviews: (string, int) -> Result<seq<Review>>,
                                          userId: string, lo: int, hi: int, page: int)
    requires hi <= page
    ensures ReviewListKey(userId, page) in Fetched(items, listReviews, userId, lo, hi) <==> ReviewListKey(userId, page) in items
    ensures ReviewListKey(userId, page) in items ==>
              Fetched(items, listReviews, userId, lo, hi)[ReviewListKey(userId, page)] == items[ReviewListKey(userId, page)]
    decreases hi - lo
  {
    if lo < hi {
      FetchedOutside(items, listReviews, userId, lo, hi - 1, page);
    }
  }

  /** One page of the collection: an error ends it, an empty page closes it,
      any other page adds its dated reviews and moves on to the next. */
  lemma CollectedStep(items: map<Key, Entry>, listReviews: (string, int) -> Result<seq<Review>>,
                      userId: string, page: int, acc: seq<Review>)
    requires page < PageLimit
    ensures PageOf(items, listReviews, userId, page).Failure? ==>
              Prefixed(acc, Collected(items, listReviews, userId, page)) == PageOf(items, listReviews, userId, page)
    ensures PageOf(items, listReviews, userId, page).Success? && |PageOf(items, listReviews, userId, page).value| == 0 ==>
              Prefixed(acc, Collected(items, listReviews, userId, page)) == Success(acc)
    ensures PageOf(items, listReviews, userId, page).Success? && |PageOf(items, listReviews, userId, page).value| > 0 ==>
              Prefixed(acc, Collected(items, listReviews, userId, page)) ==
              Prefixed(acc + Dated(PageOf(items, listReviews, userId, page).value), Collected(items, listReviews, userId, page + 1))
  {
    assert acc + [] == acc;
    var rest := Collected(items, listReviews, userId, page + 1);
    if rest.Success? && PageOf(items, listReviews, userId, page).Success? {
      var rs := PageOf(items, listReviews, userId, page).value;
      assert acc + (Dated(rs) + rest.value) == acc + Dated(rs) + rest.value;
    }
  }

  /** The dated reviews of `rs`, appended one by one to `reviews`. */
  method AppendDated(reviews: seq<Review>, rs: seq<Review>) returns (out: seq<Review>)
    ensures out == reviews + Dated(rs)
  {
    out := reviews;
    var i := 0;
    while i < |rs|
      invariant 0 <= i <= |rs| && out == reviews + Dated(rs[..i])
    {
      if rs[i].readAt.ReadOn? {
        out := out + [rs[i]];
      }
      assert rs[..i + 1][..i] == rs[..i];
      i := i + 1;
    }
    assert rs[..|rs|] == rs;
  }

  /** The state of a collection before page `page`: the cache is well keyed
      and holds what the pages before `page` added to the starting one
      `items0`, the requests sent since the start (when the log was `sent0`)
      are those pages' requests, no page before `page` stopped the
      collection, and `reviews` followed by what the pages from `page` on
      yield is the whole collection. */
  ghost predicate Collecting(items: map<Key, Entry>, sent: seq<Request>, items0: map<Key, Entry>, sent0: seq<Request>,
                             listReviews: (string, int) -> Result<seq<Review>>, userId: string, page: int,
                             reviews: seq<Review>) {
    WellKeyed(items) && 1 <= page <= PageLimit &&
    items == Fetched(items0, listReviews, userId, 1, page) &&
    |sent0| <= |sent| && sent[|sent0|..] == Requests(items0, userId, 1, page) &&
    StopPage(items0, listReviews, userId, 1) == StopPage(items0, listReviews, userId, page) &&
    Collected(items0, listReviews, userId, 1) == Prefixed(reviews, Collected(items0, listReviews, userId, page))
  }

  /** The state after a collection that returned `r`: `r` is what the pages
      yield; the requests sent are those of the pages up to the stop page that
      were not cached at the start, in order; the cache is the starting one
      plus every such page that came back. */
  ghost predicate CollectionDone(items: map<Key, Entry>, sent: seq<Request>, items0: map<Key, Entry>, sent0: seq<Request>,
                                 listReviews: (string, int) -> Result<seq<Review>>, userId: string,
                                 r: Result<seq<Review>>) {
    var stop := StopPage(items0, listReviews, userId, 1);
    WellKeyed(items) && r == Collected(items0, listReviews, userId, 1) &&
    items == Fetched(items0, listReviews, userId, 1, stop) &&
    |sent0| <= |sent| && sent[|sent0|..] == Requests(items0, userId, 1, stop)
  }

  lemma CollectingStart(items0: map<Key, Entry>, sent0: seq<Request>,
                        listReviews: (string, int) -> Result<seq<Review>>, userId: string)
    requires WellKeyed(items0)
    ensures Collecting(items0, sent0, items0, sent0, listReviews, userId, 1, []) == true
  {
    var whole := Collected(items0, listReviews, userId, 1);
    if whole.Success? {
      assert [] + whole.value == whole.value;
    }
    assert sent0[|sent0|..] == [];
  }

  /** One call of `reviewPage` during a collection, as its contract describes
      it, followed by what the loop does with the page: an error ends the
      collection with that error, an empty page ends it with the reviews so
      far, any other page adds its dated reviews and moves on. */
  lemma PageStep(items: map<Key, Entry>, items': map<Key, Entry>, sent: seq<Request>, sent': seq<Request>,
                 items0: map<Key, Entry>, sent0: seq<Request>,
                 listReviews: (string, int) -> Result<seq<Review>>, userId: string, page: int,
                 reviews: seq<Review>, r: Result<seq<Review>>)
    requires Collecting(items, sent, items0, sent0, listReviews, userId, page, reviews) == true
    requires page < PageLimit && WellKeyed(items')
    requires ReviewListKey(userId, page) in items ==>
               r == Success(items[ReviewListKey(userId, page)].reviews) && items' == items && sent' == sent
    requires ReviewListKey(userId, page) !in items ==>
               r == listReviews(userId, page) && sent' == sent + [PageRequest(userId, page)] &&
               items' == (if r.Success? then items[ReviewListKey(userId, page) := ReviewList(r.value)] else items)
    ensures r.Failure? ==> CollectionDone(items', sent', items0, sent0, listReviews, userId, r) == true
    ensures r.Success? && |r.value| == 0 ==>
              CollectionDone(items', sent', items0, sent0, listReviews, userId, Success(reviews)) == true
    ensures r.Success? && |r.value| > 0 ==>
              Collecting(items', sent', items0, sent0, listReviews, userId, page + 1, reviews + Dated(r.value)) == true
  {
    var key := ReviewListKey(userId, page);
    FetchedOutside(items0, listReviews, userId, 1, page, page);
    assert r == PageOf(items0, listReviews, userId, page);
    CollectedStep(items0, listReviews, userId, page, reviews);
    assert items' == Fetched(items0, listReviews, userId, 1, page + 1);
    if key in items {
      assert Requests(items0, userId, 1, page + 1) == Requests(items0, userId, 1, page) + [];
    } else {
      assert sent'[|sent0|..] == sent[|sent0|..] + [PageRequest(userId, page)];
    }
    assert sent'[|sent0|..] == Requests(items0, userId, 1, page + 1);
  }

  /** Past the last page the collection is complete. */
  lemma CollectingEnd(items: map<Key, Entry>, sent: seq<Request>, items0: map<Key, Entry>, sent0: seq<Request>,
                      listReviews: (string, int) -> Result<seq<Review>>, userId: string, reviews: seq<Review>)
    requires Collecting(items, sent, items0, sent0, listReviews, userId, PageLimit, reviews) == true
    ensures CollectionDone(items, sent, items0, sent0, listReviews, userId, Success(reviews)) == true
  {
    assert reviews + [] == reviews;
  }

  /** The page-collection loop of the timeline handler: pages 1 to 99 in
      order, stopping at the first empty page; the dated reviews of every page
      are kept in order; an error from any page ends the collection with that
      error. */
  method CollectReviews(c: Cache, client: Remote, userId: string) returns (r: Result<seq<Review>>)
    requires c.Valid()
    modifies c, client
    ensures c.Valid()
    ensures CollectionDone(c.items, client.sent, old(c.items), old(client.sent), client.listReviews, userId, r)
  {
    ghost var items0 := c.items;
    ghost var lr := client.listReviews;
    ghost var sent0 := client.sent;
    var reviews: seq<Review> := [];
    var page := 1;
    CollectingStart(items0, sent0, lr, userId);
    while page < PageLimit
      invariant Collecting(c.items, client.sent, items0, sent0, lr, userId, page, reviews) == true
      decreases PageLimit - page
    {
      ghost var sentBefore := client.sent;
      ghost var itemsBefore := c.items;
      assert c.Valid();
      var reviewPage := ReviewPage(c, client, userId, page);
      PageStep(itemsBefore, c.items, sentBefore, client.sent, items0, sent0, lr, userId, page, reviews, reviewPage);
      if reviewPage.Failure? {
        r := reviewPage;
        return;
      }
      var rs := reviewPage.value;
      if |rs| == 0 {
        r := Success(reviews);
        return;
      }
      reviews := AppendDated(reviews, rs);
      page := page + 1;
    }
    CollectingEnd(c.items, client.sent, items0, sent0, lr, userId, reviews);
    r := Success(reviews);
  }
}
