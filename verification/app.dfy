/** The Sinatra application's helpers (goodreads_timelines.rb): prefixing
    absolute paths with the deployment root, writing numbers with thousands
    separators, taking the user id out of the route parameter, and regrouping
    the month-filled hash of reviews under `"YYYY/MM"` keys. */
module App {
  import opened Civil
  import opened Goodreads
  import opened Decimal
  import opened Helpers

  /** Ruby's `s =~ /^p/` for a literal `p`: `^` matches at the start of the
      text and just after every newline, so `p` may begin any line. */
  predicate LineStartsWith(s: string, p: string) {
    LineStartsFrom(s, p, true)
  }

  /** `LineStartsWith` on the rest of a text; `atLineStart` says whether the
      character before `s` ended a line (or there was none). */
  predicate LineStartsFrom(s: string, p: string, atLineStart: bool)
    decreases |s|
  {
    (atLineStart && StartsWith(s, p)) || (|s| > 0 && LineStartsFrom(s[1..], p, s[0] == '\n'))
  }

  /** On a single line, `^p` is a plain prefix test. */
  lemma {:induction false} LineStartsSingleLine(s: string, p: string, atLineStart: bool)
    requires forall i :: 0 <= i < |s| ==> s[i] != '\n'
    requires |p| > 0
    ensures LineStartsFrom(s, p, atLineStart) <==> atLineStart && StartsWith(s, p)
    decreases |s|
  {
    if |s| > 0 {
      LineStartsSingleLine(s[1..], p, false);
    }
  }

  /** `r(s)`: an absolute path gets `"/" + ROOT` in front unless it already
      starts with it; `root` is the stripped text of `.root`, or empty when
      the file is missing (a nil `ROOT` interpolates as nothing). */
  function R(root: string, s: string): string {
    if LineStartsWith(s, "/") && !LineStartsWith(s, "/" + root) then "/" + root + s else s
  }

  /** With no `.root`, `r` changes nothing. */
  lemma RNoRoot(s: string)
    ensures R("", s) == s
  {
    assert "/" + "" == "/";
  }

  /** Prefixing twice is prefixing once. */
  lemma RIdempotent(root: string, s: string)
    ensures R(root, R(root, s)) == R(root, s)
  {
    if LineStartsWith(s, "/") && !LineStartsWith(s, "/" + root) {
      StartsWithConcat("/" + root, s);
      assert LineStartsWith(R(root, s), "/" + root);
    }
  }

  /** On a one-line path: a relative path is left alone; an absolute one comes
      out starting with `"/" + ROOT`, prefixed exactly when it did not already. */
  lemma ROneLine(root: string, s: string)
    requires forall i :: 0 <= i < |s| ==> s[i] != '\n'
    ensures !StartsWith(s, "/") ==> R(root, s) == s
    ensures StartsWith(s, "/") && StartsWith(s, "/" + root) ==> R(root, s) == s
    ensures StartsWith(s, "/") && !StartsWith(s, "/" + root) ==> R(root, s) == "/" + root + s
    ensures StartsWith(s, "/") ==> StartsWith(R(root, s), "/" + root)
  {
    LineStartsSingleLine(s, "/", true);
    LineStartsSingleLine(s, "/" + root, true);
    if StartsWith(s, "/") && !StartsWith(s, "/" + root) {
      StartsWithConcat("/" + root, s);
    }
  }

  /** The prefix test has no separator after the root: with root `app` the
      path `/apple` counts as already rooted and is left as it is, where
      helpers.go's `baseUrl` roots it. */
  lemma RSiblingPath()
    ensures R("app", "/apple") == "/apple"
    ensures BaseUrl("app", "/apple") == "/app/apple"
  {
    assert StartsWith("/apple", "/app");
    assert "/apple"[..5][4] != "/app/"[4];
  }

  /** `r` as its comment describes it, with the root ended by a slash: the
      root itself and paths below it are left alone, any other absolute path
      is prefixed. */
  function RootedPath(root: string, s: string): string {
    if LineStartsWith(s, "/") && s != "/" + root && !LineStartsWith(s, "/" + root + "/") then "/" + root + s else s
  }

  /** The corrected helper puts every one-line absolute path at the root or
      below it, and leaves alone those already there. */
  lemma RootedPathBelowRoot(root: string, s: string)
    requires forall i :: 0 <= i < |s| ==> s[i] != '\n'
    requires StartsWith(s, "/")
    ensures var t := RootedPath(root, s); t == "/" + root || StartsWith(t, "/" + root + "/")
    ensures s == "/" + root || StartsWith(s, "/" + root + "/") ==> RootedPath(root, s) == s
  {
    LineStartsSingleLine(s, "/", true);
    LineStartsSingleLine(s, "/" + root + "/", true);
    var t := RootedPath(root, s);
    if s != "/" + root && !StartsWith(s, "/" + root + "/") {
      assert t == ("/" + root) + s;
      assert ("/" + root) + s == ("/" + root + "/") + s[1..] by {
        assert s == "/" + s[1..];
      }
      StartsWithConcat("/" + root + "/", s[1..]);
    }
  }

  /** The gsub of `(\d)(?=(\d\d\d)+(?!\d))` by `"\\1,"` on a run of digits:
      a comma goes after every digit that is followed by a positive multiple
      of three digits. */
  function DigitGroups(ds: string): string
    decreases |ds|
  {
    if |ds| == 0 then "" else [ds[0]] + CommaAfter(|ds| - 1) + DigitGroups(ds[1..])
  }

  /** The comma, if any, that goes after a digit followed by `k` more digits. */
  function CommaAfter(k: int): string {
    if k > 0 && k % 3 == 0 then "," else ""
  }

  /** `thousands(n)` for a count `n`. */
  function Thousands(n: nat): string {
    DigitGroups(Dec(n))
  }

  lemma {:induction false} DigitGroupsLength(ds: string)
    requires |ds| > 0
    ensures |DigitGroups(ds)| == |ds| + (|ds| - 1) / 3
    decreases |ds|
  {
    if |ds| > 1 {
      DigitGroupsLength(ds[1..]);
    }
  }

  /** The commas are the only thing added. */
  lemma {:induction false} DigitGroupsStrip(ds: string)
    requires AllDigits(ds)
    ensures StripCommas(DigitGroups(ds)) == ds
    decreases |ds|
  {
    if |ds| > 0 {
      var c := CommaAfter(|ds| - 1);
      var t := DigitGroups(ds[1..]);
      DigitGroupsStrip(ds[1..]);
      assert DigitGroups(ds) == [ds[0]] + (c + t);
      StripSeparator(c, t);
      StripDigit(ds[0], c + t);
      assert ds == [ds[0]] + ds[1..];
    }
  }

  /** A leading comma, or nothing, disappears when commas are taken out. */
  lemma StripSeparator(c: string, t: string)
    requires c == "" || c == ","
    ensures StripCommas(c + t) == StripCommas(t)
  {
    if c != "" {
      assert (c + t)[1..] == t;
    } else {
      assert c + t == t;
    }
  }

  /** A leading digit stays when commas are taken out. */
  lemma StripDigit(x: char, u: string)
    requires IsDigit(x)
    ensures StripCommas([x] + u) == [x] + StripCommas(u)
  {
    assert ([x] + u)[1..] == u;
  }

  /** A digit put in front of grouped digits, with a comma between them
      exactly when the groups already come to a multiple of three digits. */
  lemma CommaGroupedCons(c: char, sep: string, t: string)
    requires IsDigit(c) && CommaGrouped(t)
    requires (sep == "," && |t| % 4 == 3) || (sep == "" && |t| % 4 != 3)
    ensures CommaGrouped([c] + sep + t)
  {
    var s := [c] + sep + t;
    var k := |sep| + 1;
    forall i | k <= i < |s| ensures s[i] == t[i - k] && |s| - i == |t| - (i - k) { }
  }

  /** The commas split the digits into groups of three from the right. */
  lemma {:induction false} DigitGroupsGrouped(ds: string)
    requires AllDigits(ds) && |ds| > 0
    ensures CommaGrouped(DigitGroups(ds))
    decreases |ds|
  {
    if |ds| > 1 {
      var r := |ds| - 1;
      var t := DigitGroups(ds[1..]);
      DigitGroupsGrouped(ds[1..]);
      DigitGroupsLength(ds[1..]);
      var m := r / 3;
      if r % 3 == 0 {
        assert |t| == 4 * m - 1;
        CommaGroupedCons(ds[0], ",", t);
      } else {
        assert |t| == 4 * m + r % 3;
        CommaGroupedCons(ds[0], "", t);
      }
    }
  }

  /** Fewer than four digits get no comma. */
  lemma {:induction false} ShortDigitGroups(ds: string)
    requires |ds| <= 3
    ensures DigitGroups(ds) == ds
    decreases |ds|
  {
    if |ds| > 0 {
      ShortDigitGroups(ds[1..]);
      assert ds == [ds[0]] + ds[1..];
    }
  }

  /** `thousands(n)` is `n.to_s` with commas between groups of three digits,
      and below 1000 it is `n.to_s` itself. */
  lemma ThousandsFormat(n: nat)
    ensures StripCommas(Thousands(n)) == Dec(n)
    ensures CommaGrouped(Thousands(n))
    ensures n < 1000 ==> Thousands(n) == Dec(n)
  {
    DigitGroupsStrip(Dec(n));
    DigitGroupsGrouped(Dec(n));
    DecLength(n);
    if n < 1000 {
      ShortDigitGroups(Dec(n));
    }
  }

  /** The digits at the front of `s`, as far as they go. */
  function DigitRun(s: string): (r: string)
    ensures AllDigits(r) && |r| <= |s| && r == s[..|r|]
    ensures |r| == |s| || !IsDigit(s[|r|])
  {
    if |s| == 0 || !IsDigit(s[0]) then "" else [s[0]] + DigitRun(s[1..])
  }

  /** `params['user_id'].match(/[0-9]+/).to_s`: the leftmost run of digits,
      taken whole, or `""` when there is none (`nil.to_s`). */
  function UserId(param: string): (id: string)
    ensures AllDigits(id)
  {
    if |param| == 0 then ""
    else if IsDigit(param[0]) then DigitRun(param)
    else UserId(param[1..])
  }

  /** How many characters come before the first digit of `s` (all of them
      when there is none). */
  function NonDigitPrefix(s: string): (n: nat)
    ensures n <= |s|
    ensures forall j :: 0 <= j < n ==> !IsDigit(s[j])
    ensures n < |s| ==> IsDigit(s[n])
  {
    if |s| == 0 || IsDigit(s[0]) then 0 else 1 + NonDigitPrefix(s[1..])
  }

  /** The user id is empty exactly when the parameter has no digit; otherwise
      it is the run of digits that starts at the first digit, taken up to the
      next non-digit or the end. */
  lemma {:induction false} UserIdSpec(param: string)
    ensures UserId(param) == "" <==> NonDigitPrefix(param) == |param|
    ensures NonDigitPrefix(param) + |UserId(param)| <= |param|
    ensures param[NonDigitPrefix(param)..NonDigitPrefix(param) + |UserId(param)|] == UserId(param)
    ensures NonDigitPrefix(param) + |UserId(param)| == |param| || !IsDigit(param[NonDigitPrefix(param) + |UserId(param)|])
    decreases |param|
  {
    if |param| > 0 && !IsDigit(param[0]) {
      var rest := param[1..];
      UserIdSpec(rest);
      var i, id := NonDigitPrefix(rest), UserId(rest);
      assert param[i + 1..i + 1 + |id|] == rest[i..i + |id|];
    }
  }

  /** `d.strftime("%Y/%m")`. */
  function MonthKey(d: Date): string {
    AppendInt(d.year, 4) + "/" + AppendInt(d.month, 2)
  }

  /** Two dates share a month key exactly when they fall in the same month. */
  lemma MonthKeySame(a: Date, b: Date)
    requires 1 <= a.month <= 12 && 1 <= b.month <= 12
    ensures MonthKey(a) == MonthKey(b) <==> a.year == b.year && a.month == b.month
  {
    if MonthKey(a) == MonthKey(b) {
      DecLength(a.month);
      DecLength(b.month);
      var ya, ma := AppendInt(a.year, 4), AppendInt(a.month, 2);
      var yb, mb := AppendInt(b.year, 4), AppendInt(b.month, 2);
      var s := MonthKey(a);
      assert |ma| == 2 && |mb| == 2;
      assert s[|s| - 2..] == ma && s[|s| - 2..] == mb;
      assert s[..|s| - 3] == ya && s[..|s| - 3] == yb;
      AppendIntInjective(a.month, b.month, 2);
      AppendIntInjective(a.year, b.year, 4);
    }
  }

  /** The reviews of one month key, as a date-keyed hash. */
  function MonthGroup(byMonth: map<Date, seq<Review>>, key: string): map<Date, seq<Review>> {
    map d | d in byMonth && MonthKey(d) == key :: byMonth[d]
  }

  /** `Hash[by_month.group_by {|d, r| d.strftime("%Y/%m")}.map {|k, v| [k, Hash[v]]}]`. */
  function Regroup(byMonth: map<Date, seq<Review>>): map<string, map<Date, seq<Review>>> {
    map key | key in (set d | d in byMonth :: MonthKey(d)) :: MonthGroup(byMonth, key)
  }

  /** Every date lands, with its reviews, under the key of its own month, and
      every group holds dates of that one month only: the groups do not
      overlap, none is empty, and together they hold the whole hash. */
  lemma RegroupPartition(byMonth: map<Date, seq<Review>>, key: string, d: Date)
    requires forall e <- byMonth :: ValidDate(e)
    ensures d in byMonth ==> MonthKey(d) in Regroup(byMonth) && d in Regroup(byMonth)[MonthKey(d)] &&
                               Regroup(byMonth)[MonthKey(d)][d] == byMonth[d]
    ensures key in Regroup(byMonth) && d in Regroup(byMonth)[key] ==> d in byMonth && MonthKey(d) == key
    ensures key in Regroup(byMonth) ==> Regroup(byMonth)[key] != map[]
    ensures key in Regroup(byMonth) && d in Regroup(byMonth)[key] ==>
              forall e <- Regroup(byMonth)[key] :: e.year == d.year && e.month == d.month
  {
    var g := Regroup(byMonth);
    if key in g {
      var d0 :| d0 in byMonth && MonthKey(d0) == key;
      assert d0 in g[key];
      if d in g[key] {
        forall e: Date | e in g[key] ensures e.year == d.year && e.month == d.month {
          MonthKeySame(e, d);
        }
      }
    }
  }
}
