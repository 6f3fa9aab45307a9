/** helpers.go: prefixing URLs with the deployment root and counting whole
    days between two instants. */
module Helpers {
  import opened Civil

  predicate StartsWith(s: string, prefix: string) {
    |prefix| <= |s| && s[..|prefix|] == prefix
  }

  /** `baseUrl`: an absolute path not already under `/<root>/` gets `/<root>`
      in front; anything else is returned as it is. `root` is the text of the
      `.root` file (empty when the file is missing). */
  function BaseUrl(root: string, url: string): string {
    var rootLeadingSlash := "/" + root;
    var rootDoubleSlash := rootLeadingSlash + "/";
    if StartsWith(url, "/") && !StartsWith(url, rootDoubleSlash) then rootLeadingSlash + url else url
  }

  lemma StartsWithConcat(p: string, s: string)
    ensures StartsWith(p + s, p)
  {
    assert (p + s)[..|p|] == p;
  }

  lemma StartsWithTrans(s: string, p: string, q: string)
    requires StartsWith(s, p) && StartsWith(p, q)
    ensures StartsWith(s, q)
  {
    assert s[..|q|] == s[..|p|][..|q|];
  }

  /** A relative url (or any text not starting with `/`) is left alone. */
  lemma BaseUrlRelative(root: string, url: string)
    requires !StartsWith(url, "/")
    ensures BaseUrl(root, url) == url
  {
  }

  /** A path already under `/<root>/` is left alone. */
  lemma BaseUrlAlreadyRooted(root: string, url: string)
    requires StartsWith(url, "/" + root + "/")
    ensures BaseUrl(root, url) == url
  {
  }

  /** Every absolute path comes out under `/<root>/`, and a second call changes nothing. */
  lemma BaseUrlRooted(root: string, url: string)
    requires StartsWith(url, "/")
    ensures StartsWith(BaseUrl(root, url), "/" + root + "/")
    ensures BaseUrl(root, BaseUrl(root, url)) == BaseUrl(root, url)
    ensures !StartsWith(url, "/" + root + "/") ==> BaseUrl(root, url) == "/" + root + url
  {
    var r := BaseUrl(root, url);
    if !StartsWith(url, "/" + root + "/") {
      assert r == ("/" + root) + url;
      assert ("/" + root) + url == ("/" + root + "/") + url[1..] by {
        assert url == "/" + url[1..];
      }
      StartsWithConcat("/" + root + "/", url[1..]);
      assert StartsWith(r, "/" + root + "/");
    }
    StartsWithTrans(r, "/" + root + "/", "/");
  }

  /** Without a `.root` file the root is empty and every absolute path gains
      a second slash: `/ext/style.css` becomes `//ext/style.css`, which names
      the host `ext`, and the home page `/` is registered at `//`. */
  lemma BaseUrlEmptyRoot(url: string)
    requires StartsWith(url, "/") && !StartsWith(url, "//")
    ensures BaseUrl("", url) == "/" + url
    ensures StartsWith(BaseUrl("", url), "//")
  {
    assert "/" + "" == "/";
    assert "/" + "" + "/" == "//";
    assert ("/" + url)[..2] == "//";
  }

  /** `baseUrl` with the empty root treated as no root, as the Ruby helper
      treats a missing `.root`. */
  function RootedUrl(root: string, url: string): string {
    if root == "" then url else BaseUrl(root, url)
  }

  /** The corrected helper changes nothing without a root, roots every
      absolute path otherwise, never makes a `//` out of a path that did not
      start with one, and a second call changes nothing. */
  lemma RootedUrlSpec(root: string, url: string)
    requires root == "" || root[0] != '/'
    ensures RootedUrl("", url) == url
    ensures root != "" && StartsWith(url, "/") ==> StartsWith(RootedUrl(root, url), "/" + root + "/")
    ensures !StartsWith(url, "//") ==> !StartsWith(RootedUrl(root, url), "//")
    ensures RootedUrl(root, RootedUrl(root, url)) == RootedUrl(root, url)
  {
    if root != "" {
      if StartsWith(url, "/") {
        BaseUrlRooted(root, url);
      }
      var r := RootedUrl(root, url);
      if r != url {
        assert r == "/" + root + url;
        assert r[1] == root[0];
      }
    }
  }

  /** Go's integer division, which truncates toward zero. */
  function TruncDiv(a: int, b: int): (q: int)
    requires b > 0
    ensures a >= 0 ==> q >= 0 && q * b <= a < q * b + b
    ensures a < 0 ==> q <= 0 && q * b - b < a <= q * b
  {
    if a >= 0 then a / b else -((-a) / b)
  }

  /** `daysBetween(a, b)`: whole days from instant `b` to instant `a`, the
      fraction dropped toward zero. Instants are whole seconds. */
  function DaysBetween(a: int, b: int): int {
    TruncDiv(a - b, SecondsPerDay)
  }

  lemma DaysBetweenSelf(a: int)
    ensures DaysBetween(a, a) == 0
  {
  }

  /** `n` whole days plus less than a day of remainder count as `n` days, in either direction. */
  lemma DaysBetweenTruncates(b: int, n: int, rest: int)
    requires 0 <= n && 0 <= rest < SecondsPerDay
    ensures DaysBetween(b + n * SecondsPerDay + rest, b) == n
    ensures DaysBetween(b - n * SecondsPerDay - rest, b) == -n
  {
    var q := TruncDiv(n * SecondsPerDay + rest, SecondsPerDay);
    assert q == n;
    var q' := TruncDiv(-(n * SecondsPerDay + rest), SecondsPerDay);
    assert q' == -n;
  }

  lemma DaysBetweenAntisymmetric(a: int, b: int)
    ensures DaysBetween(a, b) == -DaysBetween(b, a)
  {
  }
}
