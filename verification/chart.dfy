/** The DOM-free parts of the timeline page's script (public/ext/chart.js):
    capitalising a label, writing numbers with thousands separators, the
    per-month chart entries and the books/pages axis toggle, and the items
    of a book's tooltip. */
module Chart {
  import opened Decimal
  import App

  /** `c.toUpperCase()` on one character; only ASCII letters are mapped. */
  function UpperCase(c: char): char {
    if 'a' <= c <= 'z' then (c as int - 32) as char else c
  }

  /** `capitalise(string)`: `charAt(0).toUpperCase() + slice(1)`; on the
      empty string both parts are empty. */
  function Capitalise(s: string): (r: string)
    ensures |r| == |s|
    ensures |s| > 0 ==> r[0] == UpperCase(s[0]) && !('a' <= r[0] <= 'z')
    ensures forall i :: 1 <= i < |s| ==> r[i] == s[i]
  {
    if |s| == 0 then "" else [UpperCase(s[0])] + s[1..]
  }

  /** Capitalising a capitalised label changes nothing. */
  lemma CapitaliseIdempotent(s: string)
    ensures Capitalise(Capitalise(s)) == Capitalise(s)
  {
    if |s| > 0 {
      assert Capitalise(Capitalise(s)) == [UpperCase(UpperCase(s[0]))] + Capitalise(s)[1..];
    }
  }

  /** The comma, if any, that goes in before a digit that starts a run of
      `k` digits. */
  function CommaBefore(k: int): string {
    if k % 3 == 0 then "," else ""
  }

  /** `replace(/\B(?=(?:\d{3})+(?!\d))/g, ',')` on the digits after the first
      of a run: a comma goes in before every digit that, with the digits after
      it, makes a multiple of three. */
  function InsertCommas(rest: string): string
    decreases |rest|
  {
    if |rest| == 0 then "" else CommaBefore(|rest|) + [rest[0]] + InsertCommas(rest[1..])
  }

  /** The replacement on a whole run: the start of the text is a word
      boundary, so the first digit never gets a comma before it. */
  function SeparateThousands(ds: string): string {
    if |ds| == 0 then "" else [ds[0]] + InsertCommas(ds[1..])
  }

  /** `thousands(x)` for a count `x` (`x.toString()` is its decimal digits). */
  function Thousands(x: nat): string {
    SeparateThousands(Dec(x))
  }

  lemma {:induction false} InsertCommasGroups(rest: string)
    requires |rest| > 0
    ensures InsertCommas(rest) == CommaBefore(|rest|) + App.DigitGroups(rest)
    decreases |rest|
  {
    var c, tail := App.CommaAfter(|rest| - 1), App.DigitGroups(rest[1..]);
    if |rest| > 1 {
      InsertCommasGroups(rest[1..]);
      assert c == CommaBefore(|rest| - 1);
    } else {
      assert c == "" && tail == "";
    }
    assert InsertCommas(rest[1..]) == c + tail;
  }

  /** The page's regular expression and the server's put the commas in the
      same places. */
  lemma SeparateThousandsAgrees(ds: string)
    ensures SeparateThousands(ds) == App.DigitGroups(ds)
  {
    if |ds| > 1 {
      InsertCommasGroups(ds[1..]);
    }
  }

  /** `thousands(x)` is `x.toString()` with commas between groups of three
      digits, and below 1000 it is `x.toString()` itself; it is what the
      server's `thousands` writes. */
  lemma ThousandsFormat(x: nat)
    ensures Thousands(x) == App.Thousands(x)
    ensures StripCommas(Thousands(x)) == Dec(x)
    ensures CommaGrouped(Thousands(x))
    ensures x < 1000 ==> Thousands(x) == Dec(x)
  {
    SeparateThousandsAgrees(Dec(x));
    App.ThousandsFormat(x);
  }

  /** A link to a review in a month's calendar, with its `data-pages`
      already converted by unary `+`. */
  datatype ReviewLink = ReviewLink(pages: int)

  /** One entry of `chartData`: the month's date text, the anchor of its
      calendar, and how many books and pages were read in it. */
  datatype MonthEntry = MonthEntry(t: string, anchor: string, books: int, pages: int)

  /** `reduce(function(a, x) { return a + x; }, acc)` over the page counts. */
  function AddPages(links: seq<ReviewLink>, acc: int): int
    decreases |links|
  {
    if |links| == 0 then acc else AddPages(links[1..], acc + links[0].pages)
  }

  /** Reference definition: the pages of a run of links, summed from the right. */
  function TotalPages(links: seq<ReviewLink>): int {
    if |links| == 0 then 0 else TotalPages(links[..|links| - 1]) + links[|links| - 1].pages
  }

  lemma {:induction false} TotalPagesConcat(a: seq<ReviewLink>, b: seq<ReviewLink>)
    ensures TotalPages(a + b) == TotalPages(a) + TotalPages(b)
    decreases |b|
  {
    if |b| == 0 {
      assert a + b == a;
    } else {
      assert (a + b)[..|a + b| - 1] == a + b[..|b| - 1];
      TotalPagesConcat(a, b[..|b| - 1]);
    }
  }

  /** The left-to-right reduction adds up the same pages as the reference. */
  lemma {:induction false} AddPagesTotal(links: seq<ReviewLink>, acc: int)
    ensures AddPages(links, acc) == acc + TotalPages(links)
    decreases |links|
  {
    if |links| > 0 {
      AddPagesTotal(links[1..], acc + links[0].pages);
      TotalPagesConcat([links[0]], links[1..]);
      assert [links[0]] + links[1..] == links;
      assert TotalPages([links[0]]) == links[0].pages by {
        assert [links[0]][..0] == [];
      }
    }
  }

  /** The chart entry of one month's calendar table with id `id`. */
  function MonthEntryOf(t: string, id: string, links: seq<ReviewLink>): MonthEntry {
    MonthEntry(t, "#" + id, |links|, AddPages(links, 0))
  }

  /** A month's entry counts its links as books and sums their pages, from
      0 for a month without reviews; the anchor points at the table. */
  lemma MonthEntryCounts(t: string, id: string, links: seq<ReviewLink>)
    ensures MonthEntryOf(t, id, links).books == |links|
    ensures MonthEntryOf(t, id, links).pages == TotalPages(links)
    ensures |links| == 0 ==> MonthEntryOf(t, id, links).pages == 0
    ensures MonthEntryOf(t, id, links).anchor == "#" + id && MonthEntryOf(t, id, links).t == t
  {
    AddPagesTotal(links, 0);
  }

  /** The two y axes the chart switches between. */
  datatype Axis = Books | Pages

  function AxisName(a: Axis): string {
    match a
    case Books => "books"
    case Pages => "pages"
  }

  /** `x[yAxis]` on a chart entry. */
  function AxisValue(e: MonthEntry, a: Axis): int {
    match a
    case Books => e.books
    case Pages => e.pages
  }

  /** A point of the plotted series. */
  datatype Point = Point(t: string, y: int)

  /** `dataForAxis(data, yAxis)`: every entry becomes a point at the same time
      with the chosen axis' value, in the same order. */
  function DataForAxis(data: seq<MonthEntry>, a: Axis): (ps: seq<Point>)
    ensures |ps| == |data|
    ensures forall i :: 0 <= i < |data| ==> ps[i] == Point(data[i].t, AxisValue(data[i], a))
  {
    if |data| == 0 then [] else [Point(data[0].t, AxisValue(data[0], a))] + DataForAxis(data[1..], a)
  }

  /** The series of a run of entries followed by another is the two series
      one after the other. */
  lemma DataForAxisConcat(a: seq<MonthEntry>, b: seq<MonthEntry>, axis: Axis)
    ensures DataForAxis(a + b, axis) == DataForAxis(a, axis) + DataForAxis(b, axis)
  {
  }

  /** `(yAxis === 'books') ? 'pages' : 'books'`: the axis the title's link
      switches to. */
  function OtherAxis(yAxis: string): string {
    if yAxis == "books" then "pages" else "books"
  }

  /** The toggle swaps the two axes, so clicking twice comes back to where
      it started; any other name switches to books. */
  lemma OtherAxisSwaps(yAxis: string)
    ensures OtherAxis(AxisName(Books)) == AxisName(Pages) && OtherAxis(AxisName(Pages)) == AxisName(Books)
    ensures yAxis == "books" || yAxis == "pages" ==> OtherAxis(OtherAxis(yAxis)) == yAxis && OtherAxis(yAxis) != yAxis
    ensures OtherAxis(yAxis) == "books" || OtherAxis(yAxis) == "pages"
  {
    assert "books"[0] != "pages"[0];
  }

  /** An element of a tooltip's definition list. */
  datatype InfoElement = Term(text: string) | Definition(text: string)

  /** `bookInfoItem`: nothing for an empty definition, otherwise the
      capitalised item name followed by its definition. */
  function BookInfoItem(item: string, definition: string): (es: seq<InfoElement>)
    ensures definition == "" <==> es == []
  {
    if definition == "" then [] else [Term(Capitalise(item)), Definition(definition)]
  }

  /** The tooltip's list for a run of (item, definition) pairs. */
  function BookInfo(fields: seq<(string, string)>): seq<InfoElement> {
    if |fields| == 0 then [] else BookInfo(fields[..|fields| - 1]) + BookInfoItem(fields[|fields| - 1].0, fields[|fields| - 1].1)
  }

  /** The items with a non-empty definition, in order. */
  function Shown(fields: seq<(string, string)>): (shown: seq<(string, string)>)
    ensures |shown| <= |fields|
  {
    if |fields| == 0 then []
    else Shown(fields[..|fields| - 1]) + (if fields[|fields| - 1].1 == "" then [] else [fields[|fields| - 1]])
  }

  /** The list alternates terms and definitions: one pair for each item with
      a non-empty definition, in order, and none for the others. */
  lemma {:induction false} BookInfoPairs(fields: seq<(string, string)>)
    ensures |BookInfo(fields)| == 2 * |Shown(fields)|
    ensures forall j :: 0 <= j < |Shown(fields)| ==>
              BookInfo(fields)[2 * j] == Term(Capitalise(Shown(fields)[j].0)) &&
              BookInfo(fields)[2 * j + 1] == Definition(Shown(fields)[j].1) &&
              Shown(fields)[j].1 != ""
  {
    if |fields| > 0 {
      BookInfoPairs(fields[..|fields| - 1]);
    }
  }

  /** The rating star, U+2B50 with the emoji variation selector. */
  const Star: string := "\U{2B50}\U{FE0F}"

  /** `n` copies of `t` joined together. */
  function Repeat(t: string, n: nat): (s: string)
    ensures |s| == n * |t|
  {
    if n == 0 then "" else t + Repeat(t, n - 1)
  }

  /** `n` stars in a row alternate the star and its selector. */
  lemma {:induction false} RepeatStar(n: nat)
    ensures |Star| == 2
    ensures forall i :: 0 <= i < 2 * n ==> Repeat(Star, n)[i] == Star[i % 2]
  {
    if n > 0 {
      RepeatStar(n - 1);
      forall i | 2 <= i < 2 * n
        ensures Repeat(Star, n)[i] == Star[i % 2]
      {
        assert Repeat(Star, n)[i] == Repeat(Star, n - 1)[i - 2];
      }
    }
  }

  /** `stars(elem)` for a rating parsed from `data-rating`: the empty text
      for 0, otherwise `new Array(rating).fill(star).join('')`. A negative or
      unparsable rating makes `new Array` throw. */
  function Stars(rating: int): string
    requires rating >= 0
  {
    if rating == 0 then "" else Repeat(Star, rating)
  }

  /** A rating of `n` shows exactly `n` stars and nothing else. */
  lemma StarsCount(rating: int)
    requires rating >= 0
    ensures |Stars(rating)| == rating * |Star|
    ensures forall i :: 0 <= i < |Stars(rating)| ==> Stars(rating)[i] == Star[i % |Star|]
    ensures rating == 0 <==> Stars(rating) == ""
  {
    RepeatStar(rating);
  }
}
