/** The dc square root: an integer root of a scaled fraction, truncated to the result's digits. */
module SquareRoot {
  import opened Decimal

  /** The integer square root. */
  function ISqrt(n: nat): (r: nat)
    ensures r * r <= n < (r + 1) * (r + 1)
  {
    if n == 0 then 0
    else
      var r := 2 * ISqrt(n / 4);
      Quarter(n, r / 2);
      if (r + 1) * (r + 1) <= n then r + 1 else r
  }

  lemma Quarter(n: nat, h: nat)
    requires h * h <= n / 4 < (h + 1) * (h + 1)
    ensures (2 * h) * (2 * h) <= n < (2 * h + 2) * (2 * h + 2)
  {
    assert (2 * h) * (2 * h) == 4 * (h * h);
    assert (2 * h + 2) * (2 * h + 2) == 4 * ((h + 1) * (h + 1));
  }

  /** `ratSqrtNewton` on a fraction num / den: two guard digits beyond the scale. */
  function SqrtOf(num: nat, den: nat, scale: nat): real
    requires den > 0
  {
    if num == 0 then 0.0
    else ISqrt(num * den * Ten(2 * (scale + 2))) as real / (den * Ten(scale + 2)) as real
  }

  /** t is the greatest number with f digits whose square does not exceed a. */
  ghost predicate IsRoot(t: real, a: real, f: nat) {
    && Multiple(t, f) && t >= 0.0
    && Times(t, t) <= a
    && forall u | Multiple(u, f) && u > t :: Times(u, u) > a
  }

  // ---- The integer part of the argument ----

  lemma SquareMono(x: nat, y: nat)
    requires x <= y
    ensures x * x <= y * y
  {
    assert x * x <= x * y <= y * y;
  }

  lemma ProductSign(d: int, z: int)
    requires z > 0
    ensures d * z >= 0 <==> d >= 0
  {
  }

  lemma CancelLess(x: int, y: int, z: int)
    requires z > 0
    ensures x * z <= y * z <==> x <= y
  {
    var d := y - x;
    assert d * z == y * z - x * z;
    ProductSign(d, z);
  }

  /** Two nested floors still give the greatest root: q is the root n of the scaled fraction, cut to multiples of c. */
  lemma NestedFloors(num: nat, den: nat, p: nat, w: nat, c: nat, n: nat)
    requires den > 0 && p > 0 && w > 0 && c > 0 && den * w == c * p
    requires n * n <= num * den * (w * w) < (n + 1) * (n + 1)
    ensures var q := n / c;
      q * q * den <= num * (p * p) < (q + 1) * (q + 1) * den
  {
    var q := n / c;
    assert q * c <= n < (q + 1) * c by {
      assert n == q * c + n % c;
    }
    LowerRoot(num, den, p, w, c, n, q);
    UpperRoot(num, den, p, w, c, n, q + 1);
  }

  lemma LowerRoot(num: nat, den: nat, p: nat, w: nat, c: nat, n: nat, q: nat)
    requires den > 0 && w > 0 && den * w == c * p && q * c <= n && n * n <= num * den * (w * w)
    ensures q * q * den <= num * (p * p)
  {
    SquareMono(q * c, n);
    Rescale(num, den, p, w, c, q);
    var z := den * (w * w);
    assert z > 0;
    CancelLess((q * c) * (q * c), num * den * (w * w), p * p);
    CancelLess(q * q * den, num * (p * p), z);
    assert p * p > 0 || p == 0;
    if p == 0 {
      assert den * w == 0;
    }
  }

  lemma UpperRoot(num: nat, den: nat, p: nat, w: nat, c: nat, n: nat, q: nat)
    requires den > 0 && w > 0 && p > 0 && den * w == c * p && n + 1 <= q * c && num * den * (w * w) < (n + 1) * (n + 1)
    ensures num * (p * p) < q * q * den
  {
    SquareMono(n + 1, q * c);
    Rescale(num, den, p, w, c, q);
    var z := den * (w * w);
    assert z > 0 && p * p > 0;
    CancelLess((q * c) * (q * c), num * den * (w * w), p * p);
    CancelLess(q * q * den, num * (p * p), z);
  }

  lemma Rescale(num: nat, den: nat, p: nat, w: nat, c: nat, q: nat)
    requires den * w == c * p
    ensures ((q * c) * (q * c)) * (p * p) == (q * q * den) * (den * (w * w))
    ensures (num * den * (w * w)) * (p * p) == (num * (p * p)) * (den * (w * w))
  {
    calc {
      ((q * c) * (q * c)) * (p * p);
      (q * q) * ((c * p) * (c * p));
      (q * q) * ((den * w) * (den * w));
      (q * q * den) * (den * (w * w));
    }
  }

  // ---- The real part ----

  lemma FloorOfFraction(n: nat, c: nat)
    requires c > 0
    ensures (n as real / c as real).Floor == n / c
  {
    var q, r := n / c, n % c;
    var x, y := n as real, c as real;
    MulReal(q, c);
    assert x == q as real * y + r as real;
    FractionBetween(x, y, q as real, r as real);
  }

  lemma FractionBetween(x: real, y: real, q: real, r: real)
    requires y > 0.0 && x == q * y + r && 0.0 <= r < y
    ensures q <= x / y < q + 1.0
  {
    var d := x / y;
    assert d * y == x;
    SignTimes(q - d, y);
    assert (q - d) * y == -r;
    SignTimes(q + 1.0 - d, y);
    assert (q + 1.0 - d) * y == y - r;
  }

  /** The scaled quotient of the square root is the fraction n / c. */
  lemma ScaledQuotient(n: nat, den: nat, scale: nat, f: nat, c: nat)
    requires den > 0 && c > 0 && den * Ten(scale + 2) == c * Ten(f)
    ensures Scaled(n as real / (den * Ten(scale + 2)) as real, f) == n as real / c as real
  {
    TenIsP10(f);
    MulReal(c, Ten(f));
    FractionCancels(n as real, c as real, Ten(f) as real);
  }

  lemma FractionCancels(x: real, y: real, p: real)
    requires y > 0.0 && p > 0.0
    ensures Times(x / (y * p), p) == x / y
  {
    var d := x / (y * p);
    assert d * (y * p) == x;
    assert (d * p) * y == x;
  }

  lemma CompareSquares(t: real, k: real, a: real, num: real, den: real, p: real)
    requires p > 0.0 && den > 0.0 && Times(t, p) == k && Times(a, den) == num
    ensures Times(t, t) <= a <==> k * k * den <= num * (p * p)
  {
    var z := Volume(p, den);
    assert k * k * den - num * (p * p) == (t * t - a) * z;
    SignTimes(t * t - a, z);
  }

  lemma Volume(p: real, den: real) returns (z: real)
    requires p > 0.0 && den > 0.0
    ensures z == p * p * den && z > 0.0
  {
    TimesSign(p, p);
    TimesSign(Times(p, p), den);
    z := Times(Times(p, p), den);
  }

  lemma SignTimes(x: real, z: real)
    requires z > 0.0
    ensures x * z <= 0.0 <==> x <= 0.0
  {
  }

  lemma SquaresAscend(x: real, y: real)
    requires 0.0 <= x <= y
    ensures Times(x, x) <= Times(y, y)
  {
    assert x * x <= x * y;
    assert x * y <= y * y;
  }

  /** The integers behind `CompareSquares`. */
  lemma CompareByIntegers(t: real, k: nat, a: real, num: nat, den: nat, f: nat)
    requires den > 0 && Scaled(t, f) == k as real && Times(a, den as real) == num as real
    ensures Times(t, t) <= a <==> k * k * den <= num * (Ten(f) * Ten(f))
  {
    hide Times;
    TenIsP10(f);
    var p := Ten(f);
    CompareSquares(t, k as real, a, num as real, den as real, p as real);
    MulReal(k, k);
    MulReal(k * k, den);
    MulReal(p, p);
    MulReal(num, p * p);
  }

  /** The dc square root is the greatest number with f digits whose square does not exceed the operand,
      whenever f digits divide the precision of the integer root; f <= scale + 2 always does. */
  lemma RootIsGreatest(num: nat, den: nat, scale: nat, f: nat, c: nat)
    requires den > 0 && c > 0 && den * Ten(scale + 2) == c * Ten(f)
    ensures IsRoot(Truncate(SqrtOf(num, den, scale), f), num as real / den as real, f)
  {
    hide Scaled, Truncate, Times, Ten, P10, Multiple, SqrtOf, ISqrt, Abs;
    var a := num as real / den as real;
    var w := Ten(scale + 2);
    var n := ISqrt(num * den * Ten(2 * (scale + 2)));
    var q := n / c;
    var t := Truncate(SqrtOf(num, den, scale), f);
    TenSquare(scale + 2);
    DivTimes(num as real, den as real);
    RootQuotient(num, den, scale, f, c);
    NestedFloors(num, den, Ten(f), w, c, n);
    CompareByIntegers(t, q, a, num, den, f);
    ScaledSign(t, f);
    TruncateIsMultiple(SqrtOf(num, den, scale), f);
    forall u | Multiple(u, f) && u > t ensures Times(u, u) > a {
      var v := NextMultiple(t, u, f, q);
      CompareByIntegers(v, q + 1, a, num, den, f);
      SquaresAscend(v, u);
    }
  }

  lemma TenSquare(n: nat)
    ensures Ten(2 * n) == Ten(n) * Ten(n)
  {
    TenAdd(n, n);
  }

  lemma {:induction false} TenAdd(m: nat, n: nat)
    ensures Ten(m + n) == Ten(m) * Ten(n)
    decreases m
  {
    if m > 0 {
      TenAdd(m - 1, n);
      assert 10 * (Ten(m - 1) * Ten(n)) == (10 * Ten(m - 1)) * Ten(n);
    }
  }

  /** The truncated root, scaled to an integer. */
  lemma RootQuotient(num: nat, den: nat, scale: nat, f: nat, c: nat)
    requires den > 0 && c > 0 && den * Ten(scale + 2) == c * Ten(f)
    ensures var n := ISqrt(num * den * Ten(2 * (scale + 2)));
      Scaled(Truncate(SqrtOf(num, den, scale), f), f) == (n / c) as real
  {
    var n := ISqrt(num * den * Ten(2 * (scale + 2)));
    var r := SqrtOf(num, den, scale);
    TruncateScaled(r, f);
    if num == 0 {
      ScaledZero(f);
      ZeroRoot(den, scale);
      assert 0 / c == 0;
    } else {
      ScaledQuotient(n, den, scale, f, c);
      FloorOfFraction(n, c);
      FractionSign(n as real, c as real);
    }
  }

  lemma ZeroRoot(den: nat, scale: nat)
    ensures ISqrt(0 * den * Ten(2 * (scale + 2))) == 0
  {
    assert 0 * den * Ten(2 * (scale + 2)) == 0;
  }

  lemma FractionSign(x: real, y: real)
    requires x >= 0.0 && y > 0.0
    ensures x / y >= 0.0
  {
  }

  /** A larger multiple is larger by at least one unit of its last digit. */
  lemma NextMultiple(t: real, u: real, f: nat, q: nat) returns (v: real)
    requires Scaled(t, f) == q as real && Multiple(u, f) && u > t
    ensures Scaled(v, f) == (q + 1) as real && 0.0 <= v <= u
  {
    hide Scaled, P10;
    v := (q + 1) as real / P10(f);
    Unscale((q + 1) as real, f);
    ScaledAdd(u, t, f);
    ScaledSign(u - t, f);
    WholeGap(Scaled(u, f), q);
    ScaledAdd(u, v, f);
    ScaledSign(u - v, f);
    ScaledSign(v, f);
  }

  lemma WholeGap(x: real, q: int)
    requires Whole(x) && x > q as real
    ensures x >= (q + 1) as real
  {
    var m := x.Floor;
    assert m as real > q as real;
    assert m >= q + 1;
  }

  /** Up to two digits beyond the scale, the root is always the greatest. */
  lemma RootIsGreatestWithinGuard(num: nat, den: nat, scale: nat, f: nat)
    requires den > 0 && f <= scale + 2
    ensures IsRoot(Truncate(SqrtOf(num, den, scale), f), num as real / den as real, f)
  {
    var k := scale + 2 - f;
    TenAdd(k, f);
    var c := den * Ten(k);
    assert den * (Ten(k) * Ten(f)) == c * Ten(f);
    assert c > 0;
    RootIsGreatest(num, den, scale, f, c);
  }

  /** An operand with more digits than that can get a root that is too small: 2.000 at scale 0. */
  lemma RootTooSmall()
    ensures !IsRoot(Truncate(SqrtOf(2, 1, 0), 3), 2.0, 3)
  {
    hide ISqrt, P10, Ten, Truncate, Scaled, Whole;
    SmallPowers();
    assert 141 * 141 <= 20000 < 142 * 142;
    RootUnique(20000, 141);
    assert SqrtOf(2, 1, 0) == 1.41;
    Thousandths(1410, 1.41);
    Thousandths(1414, 1.414);
    TruncateExact(1.41, 3);
    assert Times(1.414, 1.414) <= 2.0;
  }

  lemma Thousandths(k: int, x: real)
    requires x * 1000.0 == k as real
    ensures Multiple(x, 3)
  {
    hide P10;
    SmallPowers();
    WholeOf(k);
  }

  lemma SmallPowers()
    ensures Ten(2) == 100 && Ten(4) == 10000 && P10(3) == 1000.0
  {
    assert Ten(1) == 10 && Ten(2) == 100 && Ten(3) == 1000;
    assert P10(1) == 10.0 && P10(2) == 100.0;
  }

  lemma RootUnique(n: nat, r: nat)
    requires r * r <= n < (r + 1) * (r + 1)
    ensures ISqrt(n) == r
  {
    var q := ISqrt(n);
    if q < r {
      SquareMono(q + 1, r);
    } else if r < q {
      SquareMono(r + 1, q);
    }
  }
}
