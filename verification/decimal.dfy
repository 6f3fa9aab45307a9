/** Decimal renderings of integers: Ruby's `Integer#to_s`, JavaScript's
    `Number#toString` on integers, and the zero-padded fields that Go's
    `time.Format` and Ruby's `strftime` write. */
module Decimal {

  predicate IsDigit(c: char) {
    '0' <= c <= '9'
  }

  predicate AllDigits(s: string) {
    forall i :: 0 <= i < |s| ==> IsDigit(s[i])
  }

  function DigitChar(n: int): (c: char)
    requires 0 <= n < 10
    ensures IsDigit(c)
  {
    ('0' as int + n) as char
  }

  function DigitValue(c: char): (n: int)
    requires IsDigit(c)
    ensures 0 <= n < 10 && DigitChar(n) == c
  {
    c as int - '0' as int
  }

  /** The number a digit string denotes; leading zeros add nothing. */
  function Value(s: string): nat
    requires AllDigits(s)
  {
    if s == [] then 0 else 10 * Value(s[..|s| - 1]) + DigitValue(s[|s| - 1])
  }

  /** The shortest decimal rendering of `n`: no leading zero except for 0 itself. */
  function Dec(n: nat): (s: string)
    ensures AllDigits(s) && 1 <= |s|
    ensures |s| > 1 ==> s[0] != '0'
  {
    if n < 10 then [DigitChar(n)] else Dec(n / 10) + [DigitChar(n % 10)]
  }

  lemma {:induction false} ValueOfDec(n: nat)
    ensures Value(Dec(n)) == n
  {
    if n >= 10 {
      var s := Dec(n);
      assert s[..|s| - 1] == Dec(n / 10);
      ValueOfDec(n / 10);
    }
  }

  /** `Dec` is one-to-one: a rendering names exactly one number. */
  lemma DecInjective(a: nat, b: nat)
    requires Dec(a) == Dec(b)
    ensures a == b
  {
    ValueOfDec(a);
    ValueOfDec(b);
  }

  lemma {:induction false} DecLength(n: nat)
    ensures n < 10 ==> |Dec(n)| == 1
    ensures 10 <= n < 100 ==> |Dec(n)| == 2
    ensures 100 <= n < 1000 ==> |Dec(n)| == 3
    ensures 1000 <= n < 10000 ==> |Dec(n)| == 4
    ensures n >= 1000 ==> |Dec(n)| >= 4
  {
    if n >= 10 {
      DecLength(n / 10);
    }
  }

  function Zeros(k: nat): (s: string)
    ensures |s| == k && AllDigits(s)
    ensures forall i :: 0 <= i < k ==> s[i] == '0'
  {
    if k == 0 then [] else Zeros(k - 1) + ['0']
  }

  /** Left-pads `s` with zeros to at least `width` characters. */
  function ZeroPad(s: string, width: nat): (r: string)
    requires AllDigits(s)
    ensures AllDigits(r) && |r| == if |s| >= width then |s| else width
  {
    if |s| >= width then s else Zeros(width - |s|) + s
  }

  lemma {:induction false} ValueLeadingZero(s: string)
    requires AllDigits(s)
    ensures Value(['0'] + s) == Value(s)
  {
    if s != [] {
      var t := ['0'] + s;
      assert t[..|t| - 1] == ['0'] + s[..|s| - 1];
      ValueLeadingZero(s[..|s| - 1]);
    }
  }

  lemma {:induction false} ValueZeros(k: nat, s: string)
    requires AllDigits(s)
    ensures Value(Zeros(k) + s) == Value(s)
  {
    if k == 0 {
      assert Zeros(k) + s == s;
    } else {
      assert Zeros(k) == ['0'] + Zeros(k - 1);
      assert Zeros(k) + s == ['0'] + (Zeros(k - 1) + s);
      ValueLeadingZero(Zeros(k - 1) + s);
      ValueZeros(k - 1, s);
    }
  }

  lemma ValueZeroPad(n: nat, width: nat)
    ensures Value(ZeroPad(Dec(n), width)) == n
  {
    ValueOfDec(n);
    if |Dec(n)| < width {
      ValueZeros(width - |Dec(n)|, Dec(n));
    }
  }

  /** Go's `appendInt(b, x, width)` from `time/format.go`, also Ruby's `%Y`,
      `%m` and `%d`: a minus sign for negative values, then the magnitude
      zero-padded to `width` digits. */
  function AppendInt(x: int, width: nat): (s: string)
    ensures |s| >= 1
    ensures x >= 0 ==> AllDigits(s)
    ensures 0 <= x && |Dec(x)| <= width ==> |s| == width
  {
    if x < 0 then "-" + ZeroPad(Dec(-x), width) else ZeroPad(Dec(x), width)
  }

  lemma ZeroPadInjective(a: nat, b: nat, width: nat)
    requires ZeroPad(Dec(a), width) == ZeroPad(Dec(b), width)
    ensures a == b
  {
    ValueZeroPad(a, width);
    ValueZeroPad(b, width);
  }

  lemma DropPrefix(p: string, a: string, b: string)
    requires p + a == p + b
    ensures a == b
  {
    assert (p + a)[|p|..] == a;
    assert (p + b)[|p|..] == b;
  }

  lemma SignedDiffers(x: int, y: int, width: nat)
    requires x < 0 <= y
    ensures AppendInt(x, width) != AppendInt(y, width)
  {
    var px, py := ZeroPad(Dec(-x), width), ZeroPad(Dec(y), width);
    assert AppendInt(x, width) == "-" + px;
    assert AppendInt(y, width) == py;
    assert ("-" + px)[0] == '-';
    assert IsDigit(py[0]);
  }

  /** Different numbers give different renderings at any fixed width. */
  lemma AppendIntInjective(x: int, y: int, width: nat)
    requires AppendInt(x, width) == AppendInt(y, width)
    ensures x == y
  {
    if x < 0 && y < 0 {
      DropPrefix("-", ZeroPad(Dec(-x), width), ZeroPad(Dec(-y), width));
      ZeroPadInjective(-x, -y, width);
    } else if x >= 0 && y >= 0 {
      ZeroPadInjective(x, y, width);
    } else if x < 0 {
      SignedDiffers(x, y, width);
    } else {
      SignedDiffers(y, x, width);
    }
  }

  /** The text with every comma taken out. */
  function StripCommas(s: string): (r: string)
    ensures |r| <= |s|
  {
    if |s| == 0 then "" else (if s[0] == ',' then "" else [s[0]]) + StripCommas(s[1..])
  }

  /** Digits grouped in threes by commas: counting from the end, every fourth
      character is a comma and all others are digits, and the length is never
      a multiple of four, so the leading group holds one to three digits and
      every comma is followed by exactly three digits. */
  predicate CommaGrouped(s: string) {
    |s| % 4 != 0 &&
    forall i :: 0 <= i < |s| ==> (s[i] == ',' <==> (|s| - i) % 4 == 0) && (s[i] != ',' ==> IsDigit(s[i]))
  }
}
