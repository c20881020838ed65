/** Zero-padded decimal rendering of unsigned integers, the way a
    `{:0N}` format specifier renders them: at least N digits, leading
    zeros to fill, never truncated. Also the reading back of a digit
    string and the byte-wise lexicographic order of strings. */
module Decimal {

  predicate IsDigit(c: char) {
    '0' <= c <= '9'
  }

  predicate AllDigits(s: string) {
    forall i :: 0 <= i < |s| ==> IsDigit(s[i])
  }

  function DigitChar(v: nat): (c: char)
    requires v < 10
    ensures IsDigit(c) && c as int - '0' as int == v
  {
    ('0' as int + v) as char
  }

  function DigitValue(c: char): nat
    requires IsDigit(c)
  {
    c as int - '0' as int
  }

  function Pow10(k: nat): (p: nat)
    ensures p >= 1
  {
    if k == 0 then 1 else 10 * Pow10(k - 1)
  }

  /** n in decimal, with leading zeros up to at least width digits. */
  function ZeroPadded(n: nat, width: nat): (s: string)
    ensures |s| >= 1 && |s| >= width
    ensures AllDigits(s)
    ensures width >= 1 && n < Pow10(width) ==> |s| == width
    decreases n, width
  {
    if n < 10 && width <= 1 then [DigitChar(n)]
    else ZeroPadded(n / 10, if width == 0 then 0 else width - 1) + [DigitChar(n % 10)]
  }

  /** The value of a string of decimal digits. */
  function ParseDecimal(s: string): nat
    requires AllDigits(s)
  {
    if s == [] then 0 else 10 * ParseDecimal(s[..|s| - 1]) + DigitValue(s[|s| - 1])
  }

  /** Rendering loses nothing: the digits read back as n, whatever the width. */
  lemma {:induction false} ParseZeroPadded(n: nat, width: nat)
    ensures ParseDecimal(ZeroPadded(n, width)) == n
    decreases n, width
  {
    var s := ZeroPadded(n, width);
    if n < 10 && width <= 1 {
      assert s[..0] == [];
    } else {
      var w := if width == 0 then 0 else width - 1;
      var p, c := ZeroPadded(n / 10, w), DigitChar(n % 10);
      assert s == p + [c];
      assert s[..|s| - 1] == p;
      ParseZeroPadded(n / 10, w);
    }
  }

  /** k digits hold a value below 10^k. */
  lemma {:induction false} ParseDecimalBound(s: string)
    requires AllDigits(s)
    ensures ParseDecimal(s) < Pow10(|s|)
  {
    if s != [] {
      ParseDecimalBound(s[..|s| - 1]);
    }
  }

  /** The field is exactly width characters wide if and only if n fits;
      a larger n widens the field instead of being cut. */
  lemma ZeroPaddedWidth(n: nat, width: nat)
    requires width >= 1
    ensures |ZeroPadded(n, width)| == width <==> n < Pow10(width)
    ensures n >= Pow10(width) ==> |ZeroPadded(n, width)| > width
  {
    ParseZeroPadded(n, width);
    ParseDecimalBound(ZeroPadded(n, width));
  }

  /** a sorts strictly before b, comparing character by character. */
  predicate LexLess(a: string, b: string)
    decreases |a|
  {
    |b| > 0 && (|a| == 0 || a[0] < b[0] || (a[0] == b[0] && LexLess(a[1..], b[1..])))
  }

  lemma {:induction false} LexLessAsymmetric(a: string, b: string)
    requires LexLess(a, b)
    ensures !LexLess(b, a)
    decreases |a|
  {
    if |a| > 0 && a[0] == b[0] {
      LexLessAsymmetric(a[1..], b[1..]);
    }
  }

  lemma LexLessIrreflexive(a: string)
    ensures !LexLess(a, a)
  {
    if LexLess(a, a) {
      LexLessAsymmetric(a, a);
    }
  }

  /** Once two equally long strings differ, what follows does not matter. */
  lemma {:induction false} LexLessExtend(x: string, y: string, u: string, v: string)
    requires |x| == |y| && LexLess(x, y)
    ensures LexLess(x + u, y + v)
    decreases |x|
  {
    if x[0] == y[0] {
      assert (x + u)[1..] == x[1..] + u;
      assert (y + v)[1..] == y[1..] + v;
      LexLessExtend(x[1..], y[1..], u, v);
    }
  }

  /** A common prefix does not change the order. */
  lemma {:induction false} LexLessPrefix(p: string, u: string, v: string)
    requires LexLess(u, v)
    ensures LexLess(p + u, p + v)
    decreases |p|
  {
    if p == [] {
      assert p + u == u && p + v == v;
    } else {
      assert (p + u)[1..] == p[1..] + u;
      assert (p + v)[1..] == p[1..] + v;
      LexLessPrefix(p[1..], u, v);
    }
  }

  /** Fixed-width rendering sorts as the numbers do. */
  lemma {:induction false} ZeroPaddedOrder(n1: nat, n2: nat, width: nat)
    requires n1 < n2 < Pow10(width)
    ensures LexLess(ZeroPadded(n1, width), ZeroPadded(n2, width))
    decreases width
  {
    if width <= 1 {
    } else {
      var w := width - 1;
      assert n2 / 10 < Pow10(w);
      var c1, c2 := [DigitChar(n1 % 10)], [DigitChar(n2 % 10)];
      assert ZeroPadded(n1, width) == ZeroPadded(n1 / 10, w) + c1;
      assert ZeroPadded(n2, width) == ZeroPadded(n2 / 10, w) + c2;
      if n1 / 10 < n2 / 10 {
        ZeroPaddedOrder(n1 / 10, n2 / 10, w);
        LexLessExtend(ZeroPadded(n1 / 10, w), ZeroPadded(n2 / 10, w), c1, c2);
      } else {
        assert LexLess(c1, c2);
        LexLessPrefix(ZeroPadded(n1 / 10, w), c1, c2);
      }
    }
  }
}
