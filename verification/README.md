# Goodreads timelines, modelled in Dafny

Goodreads timelines shows a Goodreads user's read shelf as a calendar. It
fetches the reviews page by page from the Goodreads API through a
read-through cache. It lays them out month by month and day by day, then
draws each month as a Sunday-first grid of weeks with a per-month
books/pages chart. The application exists twice: a Go server and an older
Ruby (Sinatra) server. The page script `chart.js` is shared by both.

This project models the parts of that system that compute something:

- `Civil`: proleptic Gregorian civil dates. Covers leap years, days per
  month, a day number counted from 1970-01-01, the next day, adding days,
  the weekday with Sunday = 0, and the last day of a month. Go's `time`
  values are modelled on it. So are Ruby's `Date` values from 1582-10-15
  on: before that day Ruby's default calendar (`Date::ITALY`) is Julian.
- `Decimal`: the decimal text of a number, zero padding (`%Y`, `%m`,
  `"2006"`, `"01"`), and what it means for a text to be comma-grouped.
- `Goodreads`: reviews and their read-at times. A time is a civil date, a
  second of the day and a zone offset. The review's instant is that time
  counted in seconds since the epoch, and its UTC day is the civil day that
  instant falls on in UTC. `Dated` keeps the reviews that have a read date.
- `Helpers` (helpers.go): `baseUrl` and `daysBetween`.
- `Timeline` (timeline.go): `byMonth`, the two-pointer walk that builds the
  month → day → reviews structure. It is an imperative method whose loop is
  proved against a functional description of the walk. Also the
  start/finish figures the handler derives before calling it.
- `Fetch` (timeline.go): the cache (a class holding a map) and the API (a
  class holding reply functions and a log of the requests sent).
  `userShow` and `reviewPage` are read-through methods. The page-collection
  loop of the `timeline` handler is proved against a recursive definition
  of what the pages yield.
- `Grid` (goodreads_timelines.go): the template helpers `isoDate`,
  `reviewLength`, `inc`, `offset`, `pointFor`, `between`, `dateForPoint` and
  `reviewsFor`.
- `ByDate` (lib/goodreads.rb): `reviews_by_date`, a loop that files reviews
  into a hash and an optional day or month fill. Both are methods proved
  against functional definitions. Also the page arithmetic and page loop of
  `all_reviews`.
- `App` (goodreads_timelines.rb): the path helper `r`, `thousands`, the
  user-id extraction and the `"%Y/%m"` regrouping.
- `Chart` (public/ext/chart.js): `capitalise`, `thousands`, `dataForAxis`,
  the axis toggle, the month entries of the chart, `bookInfoItem` and
  `stars`.

Some source behaviour is deliberately turned into preconditions or error
values:

- A review is placed by `byMonth` only if its instant lies strictly inside
  a UTC day. One read exactly at UTC midnight is never placed and blocks
  every later review. The model states this rather than assuming it away.
- `byMonth` reads `reviews[0]` unguarded, so it requires at least one
  review. `Timeline.SpanOf` returns `None` where the handler would index an
  empty slice.
- `byMonth` requires the finish month to be no more than one month before
  the start month: two or more months back, its loop never stops. One
  month back is possible when the last review's zone writes an earlier
  date than the first's. `byMonth` then returns one row with one slot.
- The Go cache may hold a profile as a pointer or as a plain value. Both
  kinds of entry are modelled, and both give the same profile back.

## Model

| member | source | states |
|---|---|---|
| Civil.NextDayNumber | timeline.go:42 | `AddDate(0, 0, 1)` gives a valid date one day number later. It is the 1st exactly when the old day was the last of its month, and then it is in the next month. |
| Civil.AddDaysReaches | goodreads_timelines.go:354-356 | Adding the difference of two day numbers to a date reaches the other date. |
| Civil.WeekdayAfter | goodreads_timelines.go:345-347 | The weekday moves forward with the day number, modulo 7. |
| Decimal.ValueOfDec | goodreads_timelines.rb:38 | Reading the decimal text of `n` back gives `n`. |
| Decimal.AppendIntInjective | goodreads_timelines.go:326-328 | Zero-padded decimal fields (`%Y`, `"2006"`, `"01"`) of different numbers differ. |
| Goodreads.UtcDayOfUtcTime | timeline.go:30 | For a time written in UTC, the review's UTC day is its civil date, and it lies at UTC midnight exactly when its clock reads 00:00:00. |
| Goodreads.DatedMembers | timeline.go:136-140 | A review is kept exactly when it has a read date. |
| Goodreads.DatedConcat | timeline.go:136-140 | Filtering a concatenation is concatenating the filtered parts, so order is kept. |
| Helpers.BaseUrlRelative | helpers.go:24-28 | A url not starting with `/` comes back unchanged. |
| Helpers.BaseUrlAlreadyRooted | helpers.go:21-24 | A url already under `"/" + root + "/"` comes back unchanged. |
| Helpers.BaseUrlRooted | helpers.go:20-29 | Every absolute url ends up under `"/" + root + "/"`. Applying `baseUrl` twice is applying it once. A url not already under the root gets `"/" + root` in front. |
| Helpers.BaseUrlEmptyRoot | helpers.go:20-29 | As written, with no `.root` file an absolute url gets a second leading slash. |
| Helpers.RootedUrlSpec | helpers.go:20-29 | The corrected helper: with no root, urls are unchanged. With a root, absolute urls go under it. A url not starting with `//` never gets one. It is idempotent. |
| Helpers.TruncDiv | helpers.go:37 | Integer division rounding toward zero, as Go's `int(...)` conversion of the quotient does. |
| Helpers.DaysBetweenSelf | helpers.go:36-38 | `daysBetween(a, a) == 0`. |
| Helpers.DaysBetweenTruncates | helpers.go:36-38 | `n` whole days plus less than a day of remainder, in either direction, gives `n` (or `-n`). |
| Helpers.DaysBetweenAntisymmetric | helpers.go:37 | Swapping the arguments negates the result. |
| Timeline.ByMonth | timeline.go:17-57 | When the finish month is not before the start month: one row per calendar month of the span and one slot per day of each month. Every held review is in the slot of its own UTC day. The held reviews are, in order, exactly the longest prefix of the input that the walk can place: each is inside a UTC day of the span, not before the one before it, and the review after them is not. When the finish month is the month before the start month: one row with one slot, holding the leading reviews that lie strictly inside the UTC day of the start date. |
| Timeline.WalkDays | timeline.go:21-54 | The loop returns what the recursive description of the walk returns. Its invariant includes `len(reviewsByMonth[month]) == currentDate.Day()`, which keeps `dayIndex` in bounds and on the last slot. Termination is proved with measure `(len(reviews) - review) + (length - day)`. |
| Timeline.PlaceStep | timeline.go:32-39 | Appending the current review to the current day's slot, and moving to the next review, leaves the rest of the walk unchanged. |
| Timeline.AdvanceStep | timeline.go:40-53 | Moving to the next day stops after the last day. Otherwise it opens a new slot, and on the 1st it first opens a new month row. Either way the rest of the walk is unchanged. |
| Timeline.WalkStart | timeline.go:18-20 | `length` is the number of days from the 1st of the start month to the last day of the finish month, inclusive. `finishByMonth` is 23:59:59 on that last day, and the truncation in `daysBetween` drops the remainder. |
| Timeline.OneDayStart | timeline.go:19-20 | A finish month just before the start month gives `length == 1`: 23:59:59 on its last day is one second before the start, and the truncation makes that 0 days. |
| Timeline.OneDayWalk | timeline.go:29-54 | With `length == 1` the walk fills the one slot with the leading reviews strictly inside the start's UTC day, stops at the first that is not, and returns one row with one slot. |
| Timeline.ByMonthLengthNegative | timeline.go:19-20 | A finish month two or more months before the start month makes `length` less than 1, so the `day == length` test at timeline.go:44 never succeeds. |
| Timeline.WalkResult | timeline.go:17-57 | The walk started on the first day of the span returns what `ByMonth` promises. |
| Timeline.WalkCorrect | timeline.go:29-54 | From any state meeting the loop invariant, the walk ends with what `ByMonth` promises. |
| Timeline.ShapedFromEnds | timeline.go:41-52 | Rows closed on the last day of their months have one slot per day of the month. |
| Timeline.SpanOf | timeline.go:143-146 | With at least one review: the count, the first and last review's times, and the 1st of the first review's month. It returns `None` where the source indexes an empty slice. |
| Timeline.SpanFitsByMonth | timeline.go:143-158 | When the first review is not later than the last (pages are requested by date read, ascending, at timeline.go:92) and both zone offsets are under a day, the derived start and finish meet what `byMonth` asks: the start month is at most one month after the finish month. |
| Timeline.ByMonthPlacesAll | timeline.go:24-39 | Every review is placed exactly once, same-day reviews keep input order, and the result laid end to end is the input. This holds when the reviews are in ascending UTC-day order and each lies strictly inside a UTC day of the span. |
| Timeline.PlacedWithinSpan | timeline.go:30-35 | A held review is not at a UTC midnight and lies inside the span. |
| Timeline.MidnightReviewBlocks | timeline.go:30-32 | A review at exactly UTC midnight is never placed, nor is any review after it. |
| Timeline.EarlyFirstReviewPlacesNothing | timeline.go:30-146 | If the first review's UTC day falls before the 1st of the month taken from its own zone, nothing is placed. |
| Fetch.PageRequest | timeline.go:92 | The request for a page asks for that user and page, 200 a page. |
| Fetch.Cache.Set | timeline.go:97 | Stores the entry under its key and keeps the cache well keyed. |
| Fetch.Remote.UserShow | timeline.go:75 | Returns the API's answer for the profile and logs the request. |
| Fetch.Remote.ReviewList | timeline.go:92 | Returns the API's answer for the page and logs the request. |
| Fetch.UserShow | timeline.go:59-84 | On a hit, the cached profile, the same whether stored as a pointer or a value, with no request and no cache change. On a miss, one request, and the answer is returned. A profile is stored (as a pointer). An error leaves the cache unchanged. |
| Fetch.ReviewPage | timeline.go:86-101 | On a hit, the cached page with no request and no cache change. On a miss, one request, and the answer is returned. It is stored only on success. An error leaves the cache unchanged. |
| Fetch.CollectedDated | timeline.go:125-141 | A successful collection keeps only reviews with a read date. |
| Fetch.CollectedFails | timeline.go:126-130 | The first failing page, before any empty page, makes the whole collection that error. |
| Fetch.CollectedStops | timeline.go:132-134 | Pages after the first empty page have no effect on the result. |
| Fetch.CollectedStep | timeline.go:125-141 | One page of the collection: an error ends it, an empty page ends it with what was kept so far, and otherwise the page's dated reviews come next. |
| Fetch.AppendDated | timeline.go:136-140 | Appends the reviews of a page that have a read date, in order. |
| Fetch.StopPageSpec | timeline.go:125-141 | Every page before the last read one is fetched and non-empty; the last read one failed or was empty unless the page limit was reached. |
| Fetch.RequestsSpec | timeline.go:86-101 | The requests for pages `lo` to `hi - 1` are exactly the pages not in the cache, each once, in increasing page order. |
| Fetch.FetchedSpec | timeline.go:86-101 | Reading pages `lo` to `hi - 1` keeps every old entry and adds exactly this user's uncached pages in that range whose reply succeeded, each with its reply. |
| Fetch.PageStep | timeline.go:125-141 | One iteration of the page loop keeps the loop invariant: the cache is the starting cache plus the fetched pages read so far, the new requests are the uncached pages read so far in order, and the kept reviews followed by the remaining pages' yield is the whole collection. |
| Fetch.CollectReviews | timeline.go:125-141 | Requests pages 1, 2, … up to 99 in order and stops at the first failing or empty page. It returns, in page order, the reviews with a read date, or the first page error. The cache gains exactly the uncached pages up to that stop page whose reply succeeded. The new requests are exactly the uncached pages up to it, in order. |
| Grid.IsoDate | goodreads_timelines.go:326-328 | For years 0 to 9999 the text is `YYYY-MM-DD`: ten characters, dashes at 4 and 7, digits elsewhere. |
| Grid.IsoDateFields | goodreads_timelines.go:326-328 | The three fields read back as the year, month and day. |
| Grid.IsoDateInjective | goodreads_timelines.go:326-328 | Different dates give different texts. |
| Grid.ReviewLength | goodreads_timelines.go:335-341 | The accumulator loop returns the number of reviews held in the slots of a row. |
| Grid.SlotCountFlatten | goodreads_timelines.go:335-341 | That count is the length of the row's reviews laid end to end. |
| Grid.ReviewLengthsAddUp | goodreads_timelines.go:335-341 | Under the placement precondition, the counts of all `byMonth` rows add up to the number of reviews. |
| Grid.Offset | goodreads_timelines.go:345-347 | The weekday is between 0 and 6. |
| Grid.PointForInverse | goodreads_timelines.go:348-350 | `(p / 7, p % 7)` inverts `pointFor` for columns 0 to 6. |
| Grid.PointForInjective | goodreads_timelines.go:348-350 | Different (week, column) pairs give different points. |
| Grid.IncNextWeek | goodreads_timelines.go:342-350 | The point in the next week (`inc`) is seven cells later. |
| Grid.BetweenRun | goodreads_timelines.go:351-353 | `between` holds exactly when `first.Day() <= point - offset + 1 <= last.Day()`, a run of `last.Day() - first.Day() + 1` points. |
| Grid.DateForPoint | goodreads_timelines.go:354-356 | A valid date whose day number is `point - offset` more than `first`'s, carrying across month and year ends as `AddDate` does. |
| Grid.DateForPointInMonth | goodreads_timelines.go:351-356 | In a month's grid, a point between the first and last day shows day `point - offset + 1` of that month. |
| Grid.DateForPointWeekday | goodreads_timelines.go:345-356 | The date in column `d` falls on weekday `d`. |
| Grid.GridCoversMonth | goodreads_timelines.go:348-356 | Every day of the month has exactly one cell. |
| Grid.ReviewsForRow | goodreads_timelines.go:357-359 | For every date of a `byMonth` row's month, `reviewsFor` is in bounds, and every review it returns lies in that date's UTC day. |
| ByDate.ReadOnDate | lib/goodreads.rb:57-63 | Reference definition: the reviews read on a given date, in input order. |
| ByDate.ReadOnDateMembers | lib/goodreads.rb:58-63 | A review is listed under a date exactly when it is in the input and read on that date. |
| ByDate.GroupedByDate | lib/goodreads.rb:55-64 | After the loop, a date is a key exactly when some review was read on it. Its list is those reviews in input order. |
| ByDate.GroupedNonEmpty | lib/goodreads.rb:62-63 | Without fill, every key holds at least one review. |
| ByDate.GroupedUndated | lib/goodreads.rb:58 | Reviews without a read date file nothing. |
| ByDate.GroupedTotal | lib/goodreads.rb:60-63 | The lists hold as many reviews as were kept. |
| ByDate.Earliest | lib/goodreads.rb:67 | `by_date.keys.min`: a key of the hash, a valid date, on or before every other key. |
| ByDate.Latest | lib/goodreads.rb:68 | `by_date.keys.max`: a key of the hash, a valid date, on or after every other key. |
| ByDate.FillBounds | lib/goodreads.rb:66-73 | The fill runs from the least to the greatest key. For `:month` it runs from the 1st of the first key's month to the last day of the last key's month (`Date.civil(y, m, -1)`), and it includes every key. |
| ByDate.FillFromSpec | lib/goodreads.rb:75 | After the `upto` loop, the keys are the old ones plus every day of the run. Old entries are unchanged (`\|\|=`) and new ones are empty. |
| ByDate.FillFromTotal | lib/goodreads.rb:75 | Filling adds no review. |
| ByDate.FilledKeys | lib/goodreads.rb:48-75 | With a fill, the keys are exactly the dates from the fill start to the fill end. |
| ByDate.FilledValues | lib/goodreads.rb:62-75 | With a fill, each date's list is the reviews read on it, possibly empty. |
| ByDate.FilledTotal | lib/goodreads.rb:54-79 | With or without fill, the lists hold as many reviews as were kept. |
| ByDate.GroupedStep | lib/goodreads.rb:57-64 | One pass of the `each` loop files one more review. |
| ByDate.ReviewsByDate | lib/goodreads.rb:54-79 | The hash built by the two loops is the functional one, whose keys and values the lemmas above describe. |
| ByDate.FillSpan | lib/goodreads.rb:75 | The `upto` loop gives the recursive fill over the days of the run. |
| ByDate.PageCount | lib/goodreads.rb:36 | `ceil(total / 200)`: the least `n` with `200 * n >= total`. |
| ByDate.PagesFrom | lib/goodreads.rb:38 | `lo.upto(hi)`: the pages from `lo` to `hi` in order, and none when `hi < lo`. |
| ByDate.ExtraPages | lib/goodreads.rb:35-38 | When `end != total`, pages 2 up to `ceil(total / 200)`. |
| ByDate.AllPagesFetched | lib/goodreads.rb:31-42 | Every review index lies on page 1 or on an extra page, and every extra page holds a review. |
| ByDate.AppendedStep | lib/goodreads.rb:38 | One more page appends that page's reviews. |
| ByDate.AllReviews | lib/goodreads.rb:31-42 | The reviews of the first page, followed in order by those of every extra page. |
| App.LineStartsSingleLine | goodreads_timelines.rb:29 | On a one-line text, `^p` is a plain prefix test. |
| App.RNoRoot | goodreads_timelines.rb:18-29 | With no `.root`, `r` changes nothing. |
| App.RIdempotent | goodreads_timelines.rb:28-30 | `r(r(s)) == r(s)`. |
| App.ROneLine | goodreads_timelines.rb:28-30 | On one line: a relative path is unchanged. A path already starting with `"/" + ROOT` is unchanged. Any other absolute path gets `"/" + ROOT` in front. The result starts with `"/" + ROOT`. |
| App.RSiblingPath | goodreads_timelines.rb:28-30 | As written, with root `app` the path `/apple` counts as already rooted, while Go's `baseUrl` prefixes it. |
| App.RootedPathBelowRoot | goodreads_timelines.rb:27-30 | The corrected helper puts every absolute path at or below `"/" + ROOT + "/"` and leaves alone those already there. |
| App.DigitGroupsLength | goodreads_timelines.rb:38 | One comma for every full group of three after the leading group. |
| App.DigitGroupsStrip | goodreads_timelines.rb:38 | Removing the commas gives back the digits. |
| App.DigitGroupsGrouped | goodreads_timelines.rb:38 | Every comma is followed by exactly three digits, and the leading group has one to three. |
| App.ShortDigitGroups | goodreads_timelines.rb:38 | Three digits or fewer are unchanged. |
| App.ThousandsFormat | goodreads_timelines.rb:37-39 | `thousands(n)` without commas is `n.to_s`. It is comma-grouped, and below 1000 it is `n.to_s`. |
| App.DigitRun | goodreads_timelines.rb:76 | The maximal run of digits at the start of a text. |
| App.UserId | goodreads_timelines.rb:76 | The extracted id is all digits. |
| App.NonDigitPrefix | goodreads_timelines.rb:76 | The position of the first digit, or the length when there is none. |
| App.UserIdSpec | goodreads_timelines.rb:76 | The id is `""` exactly when there is no digit. Otherwise it is the first maximal run of digits in the parameter. |
| App.MonthKeySame | goodreads_timelines.rb:83 | Two dates get the same `"%Y/%m"` key exactly when they are in the same year and month. |
| App.RegroupPartition | goodreads_timelines.rb:82-84 | Each date goes under its own month's key with its value. Each inner hash holds only dates of its month and is not empty. The inner hashes are disjoint, and together they are the input. |
| Chart.Capitalise | public/ext/chart.js:16-18 | Same length. The first character is upper-cased and the rest unchanged, and `""` gives `""`. |
| Chart.CapitaliseIdempotent | public/ext/chart.js:16-18 | Capitalising twice is capitalising once. |
| Chart.InsertCommasGroups | public/ext/chart.js:21-23 | The regular expression's commas in a digit run fall where the server's grouping puts them. |
| Chart.SeparateThousandsAgrees | public/ext/chart.js:21-23 | On a digit run, the page's replacement equals the server's. |
| Chart.ThousandsFormat | public/ext/chart.js:21-23 | `thousands(x)` without commas is `x.toString()`. It is comma-grouped, below 1000 it is `x.toString()`, and it is what the Ruby server writes. |
| Chart.TotalPagesConcat | public/ext/chart.js:104-106 | Page totals add over concatenation. |
| Chart.AddPagesTotal | public/ext/chart.js:104-106 | The left-to-right `reduce` from `acc` gives `acc` plus the total pages. |
| Chart.MonthEntryCounts | public/ext/chart.js:97-108 | A month's entry has `books` equal to its number of links and `pages` equal to their page sum, which is 0 without links. The anchor is `#` plus the table's id. |
| Chart.DataForAxis | public/ext/chart.js:25-27 | Same length and order. Each point keeps `t` and takes the chosen axis' value. |
| Chart.DataForAxisConcat | public/ext/chart.js:25-27 | Mapping commutes with concatenation. |
| Chart.OtherAxisSwaps | public/ext/chart.js:61 | The toggle swaps `books` and `pages`, and applying it twice changes nothing. |
| Chart.BookInfoItem | public/ext/chart.js:74-80 | Empty exactly when the definition is `''`. |
| Chart.BookInfoPairs | public/ext/chart.js:117-127 | The tooltip list is one term/definition pair per non-empty item, in order, and the term is the capitalised item name. |
| Chart.RepeatStar | public/ext/chart.js:88 | `n` stars alternate the star and its variation selector. |
| Chart.StarsCount | public/ext/chart.js:82-89 | A rating of `n >= 0` gives exactly `n` stars, and `''` exactly for 0. |

## Left out

- HTTP handling, routing, templates, redirects, request logging and `main` are left out; so are the Sinatra routes and HAML. This is I/O glue. Only the page-collection loop and the start/finish figures of the Go `timeline` handler are modelled.
- Cache expiry, the janitor sweep, the gob file snapshot and the signal-driven `cleanup` are left out. This is library code, file I/O and concurrency. The cache is a map in which an entry, once set, stays.
- The Goodreads API clients are left out: Go's `UserShow`/`ReviewList`, and Ruby's `list_page`, open-uri, Nokogiri and `book_info`. Network and XML parsing are outside the model. The API is a pair of reply functions in `Fetch.Remote`. In `ByDate.AllReviews` a page is a function of the page number that gives `end`, `total` and the page's reviews.
- `find_user_id` and `user_info`, called by the Ruby routes, are not part of this model.
- Date parsing is left out: `parseTime` with `bail`, and `Date.strptime`. Times come in already parsed. `Goodreads.Parsed` and `ByDate.Parses` stand for a successful parse, so a text the parser rejects, which ends the Go process, is outside the model. Ruby `strptime` keeps the civil date written in the text, and the model does the same.
- Floating point is left out. `perWeek` is not modelled. `daysBetween` divides whole seconds by 86400 with truncation toward zero, in place of `Hours() / 24`. `to_f.ceil` is integer ceiling division.
- Go's `thousands`, `readFile`, `makeSlice` and the stylesheet code are left out. They are library wrappers (message printer, file reading, Sass) or trivial allocation.
- The copies in goodreads_timelines.go of `byMonth`, `userShow`, `reviewPage`, `baseUrl` and `daysBetween` are not modelled separately; the timeline.go and helpers.go versions are. Those copies use a global cache instead of a parameter.
- public/ext/tooltip.js is left out. Its one computing function is the same `thousands` as in chart.js.
- The DOM, Chart and tippy parts of chart.js are left out, as is `averageRating`, which only concatenates DOM text.
- The order of Ruby's hashes is not modelled. `reviews_by_date` and the regrouping are modelled as maps, so insertion order, which Ruby hashes keep, is not captured.
- `ByDate.AllReviews`: `end` and `total` are numbers here, whereas Ruby compares the attribute texts.
- `App.R`: `ROOT` is taken as literal text. Regular-expression metacharacters in `.root` are not modelled.
- `Chart.UpperCase`: only ASCII letters are upper-cased. JavaScript's full Unicode case mapping is not modelled.
- `Chart.Stars`: it requires a non-negative rating. A negative or non-numeric rating (`NaN` from `parseInt`) makes `new Array` throw.
- `Chart.AddPages`: page counts are integers. The unary `+` on a missing or non-numeric `data-pages` would give `NaN`.
- `ByDate.ReviewsByDate`: with a fill, it requires at least one dated review. Ruby raises on `nil` there, and the model does not model the exception.
- `Timeline.ByMonth`: it requires at least one review, because the source indexes `reviews[0]`. The handler's panic on an empty shelf is modelled by `Timeline.SpanOf` returning `None`.
- `Timeline.ByMonth`: it requires that the finish month be at most one month before the start month. Two or more months back, `length` is below 1 (`Timeline.ByMonthLengthNegative`), the source's loop never stops, and a terminating method cannot model it. The handler never makes that call when the reviews are in read order and zone offsets are under a day (`Timeline.SpanFitsByMonth`).
- `Helpers.DaysBetween` and `Timeline.WalkStart`: Go's `Time.Sub` saturates at about ±292 years (±106751 days) and `daysBetween` inherits that. The model's difference is exact, so spans longer than that are not modelled as Go computes them.
- `ByDate.ReviewsByDate`: its fill runs over proleptic Gregorian days and month lengths. Ruby's `Date` is Julian before 1582-10-15 (`Date::ITALY`): it has 1500-02-29, it has no 1582-10-05 to 1582-10-14, and `upto` skips those days. For dates before the reform the model's fill, and `Date.civil(y, m, -1)` in `ByDate.FillBounds`, differ from Ruby's.
- `Grid.Inc` and `Grid.PointFor` are single additions. Their contracts are stated about their use (`Grid.IncNextWeek`, `Grid.PointForInverse`) rather than on the functions themselves.
- `Fetch.CollectReviews` returns from inside the loop at the first empty page. That is equivalent to the source's `break`, since nothing follows the loop in the modelled part.

## Findings

| source | as written | input that shows it | evidently intended | confidence | as-written member | corrected member |
|---|---|---|---|---|---|---|
| helpers.go:20-29 | With no `.root` file, `rootUrl` is `""`. `baseUrl` then prefixes every absolute url with `/`, because no url starts with `"//"`. | `baseUrl("/ext/")` with an empty root gives `"//ext/"`. That is a protocol-relative url in the page, and a route pattern with a double slash. | With no root, urls are left as they are. | medium, not executed | Helpers.BaseUrlEmptyRoot | Helpers.RootedUrlSpec |
| goodreads_timelines.rb:28-30 | `r` tests the prefix `"/" + ROOT` with no trailing slash, so a sibling path sharing the root's letters counts as already rooted. | With `ROOT = "app"`, `r("/apple")` gives `"/apple"`, while Go's `baseUrl` gives `"/app/apple"`. | Only the root itself and paths below `"/" + ROOT + "/"` are left alone. | medium, not executed | App.RSiblingPath | App.RootedPathBelowRoot |
