/** Exact decimal arithmetic: powers of ten, whole numbers among the reals, and truncation. */
module Decimal {

  /** Ten to the n; a negative exponent counts as zero. */
  function P10(n: int): (r: real)
    ensures r >= 1.0
    decreases if n < 0 then 0 else n
  {
    if n <= 0 then 1.0 else 10.0 * P10(n - 1)
  }

  function Ten(n: int): (r: int)
    ensures r >= 1
    decreases if n < 0 then 0 else n
  {
    if n <= 0 then 1 else 10 * Ten(n - 1)
  }

  lemma {:induction false} TenIsP10(n: int)
    ensures Ten(n) as real == P10(n)
    decreases if n < 0 then 0 else n
  {
    if n > 0 {
      TenIsP10(n - 1);
    }
  }

  /** Multiplication, named so that proofs can treat it as a whole. */
  function Times(x: real, y: real): real { x * y }

  lemma TimesAssoc(x: real, y: real, z: real)
    ensures Times(Times(x, y), z) == Times(x, Times(y, z))
  {
    assert (x * y) * z == x * (y * z);
  }

  lemma TimesComm(x: real, y: real)
    ensures Times(x, y) == Times(y, x)
  {
  }

  lemma P10Step(n: int)
    ensures P10(n) == if n <= 0 then 1.0 else Times(10.0, P10(n - 1))
  {
  }

  lemma {:induction false} P10Add(m: nat, n: nat)
    ensures P10(m + n) == Times(P10(m), P10(n))
    decreases m
  {
    hide P10, Times;
    P10Step(m);
    P10Step(m + n);
    if m > 0 {
      P10Add(m - 1, n);
      TimesAssoc(10.0, P10(m - 1), P10(n));
    } else {
      TimesOne(P10(n));
    }
  }

  lemma TimesOne(x: real)
    ensures Times(1.0, x) == x && Times(x, 1.0) == x && Times(0.0, x) == 0.0
  {
  }

  // ---- Whole numbers ----

  predicate Whole(x: real) { x.Floor as real == x }

  lemma {:induction false} MulReal(m: int, n: int)
    ensures (m * n) as real == (m as real) * (n as real)
    decreases if m < 0 then -m else m
  {
    if m > 0 {
      MulReal(m - 1, n);
      assert m * n == (m - 1) * n + n;
      assert (m as real) * (n as real) == ((m - 1) as real) * (n as real) + n as real;
    } else if m < 0 {
      MulReal(m + 1, n);
      assert m * n == (m + 1) * n - n;
      assert (m as real) * (n as real) == ((m + 1) as real) * (n as real) - n as real;
    }
  }

  lemma WholeOf(m: int)
    ensures (m as real).Floor == m && Whole(m as real)
  {
  }

  lemma WholeMul(x: real, y: real)
    requires Whole(x) && Whole(y)
    ensures Whole(Times(x, y))
  {
    var m, n := x.Floor, y.Floor;
    MulReal(m, n);
    WholeOf(m * n);
    assert Times(x, y) == (m * n) as real;
  }

  lemma WholeAdd(x: real, y: real)
    requires Whole(x) && Whole(y)
    ensures Whole(x + y) && Whole(x - y)
  {
    WholeOf(x.Floor + y.Floor);
    WholeOf(x.Floor - y.Floor);
  }

  lemma WholeP10(n: int)
    ensures Whole(P10(n))
  {
    TenIsP10(n);
    WholeOf(Ten(n));
  }

  // ---- Numbers scaled by a power of ten ----

  function Scaled(v: real, n: int): real { Times(v, P10(n)) }

  lemma ScaledAdd(v: real, w: real, n: int)
    ensures Scaled(v + w, n) == Scaled(v, n) + Scaled(w, n)
    ensures Scaled(v - w, n) == Scaled(v, n) - Scaled(w, n)
  {
    hide P10, Times;
    Distribute(v, w, P10(n));
  }

  lemma Distribute(v: real, w: real, p: real)
    ensures Times(v + w, p) == Times(v, p) + Times(w, p)
    ensures Times(v - w, p) == Times(v, p) - Times(w, p)
  {
  }

  lemma ScaledMore(v: real, m: nat, n: nat)
    requires m <= n
    ensures Scaled(v, n) == Times(Scaled(v, m), P10(n - m))
  {
    hide P10, Times;
    P10Add(m, n - m);
    TimesAssoc(v, P10(m), P10(n - m));
  }

  lemma ScaledMul(v: real, m: nat, w: real, n: nat)
    ensures Scaled(Times(v, w), m + n) == Times(Scaled(v, m), Scaled(w, n))
  {
    hide P10, Times;
    P10Add(m, n);
    Regroup(v, w, P10(m), P10(n));
  }

  lemma Regroup(v: real, w: real, p: real, q: real)
    ensures Times(Times(v, w), Times(p, q)) == Times(Times(v, p), Times(w, q))
  {
    hide Times;
    TimesAssoc(v, w, Times(p, q));
    TimesAssoc(w, p, q);
    TimesComm(w, p);
    TimesAssoc(p, w, q);
    TimesAssoc(v, p, Times(w, q));
  }

  lemma ScaledInjective(v: real, w: real, n: int)
    requires Scaled(v, n) == Scaled(w, n)
    ensures v == w
  {
    hide P10;
    var p := P10(n);
    assert (v - w) * p == 0.0;
  }

  lemma Unscale(t: real, n: int)
    ensures Scaled(t / P10(n), n) == t
  {
    hide P10;
    DivTimes(t, P10(n));
  }

  lemma DivTimes(t: real, p: real)
    requires p != 0.0
    ensures Times(t / p, p) == t
  {
  }

  lemma ScaledZero(n: int)
    ensures Scaled(0.0, n) == 0.0
  {
    hide P10;
  }

  lemma NegativeScale(v: real, n: int)
    ensures Scaled(v, n) == Scaled(v, if n < 0 then 0 else n)
  {
    hide Times;
  }

  function Abs(x: real): real { if x < 0.0 then -x else x }

  lemma ScaledSign(v: real, n: int)
    ensures Scaled(v, n) > 0.0 <==> v > 0.0
    ensures Scaled(v, n) < 0.0 <==> v < 0.0
    ensures Abs(Scaled(v, n)) == Scaled(Abs(v), n)
  {
    hide P10, Times;
    TimesSign(v, P10(n));
  }

  lemma TimesSign(x: real, p: real)
    requires p > 0.0
    ensures Times(x, p) > 0.0 <==> x > 0.0
    ensures Times(x, p) < 0.0 <==> x < 0.0
    ensures Abs(Times(x, p)) == Times(Abs(x), p)
  {
  }

  // ---- Multiples of a power of ten ----

  /** v has at most n digits after the point. */
  predicate Multiple(v: real, n: int) { Whole(Scaled(v, n)) }

  lemma MultipleMore(v: real, m: int, n: int)
    requires Multiple(v, m) && m <= n
    ensures Multiple(v, n)
  {
    hide Scaled, Whole, Times;
    var k, l := if m < 0 then 0 else m, if n < 0 then 0 else n;
    NegativeScale(v, m);
    NegativeScale(v, n);
    ScaledMore(v, k, l);
    WholeP10(l - k);
    WholeMul(Scaled(v, k), P10(l - k));
  }

  lemma MultipleAdd(v: real, w: real, n: int)
    requires Multiple(v, n) && Multiple(w, n)
    ensures Multiple(v + w, n) && Multiple(v - w, n)
  {
    hide Scaled, Whole;
    ScaledAdd(v, w, n);
    WholeAdd(Scaled(v, n), Scaled(w, n));
  }

  lemma MultipleMul(v: real, m: nat, w: real, n: nat)
    requires Multiple(v, m) && Multiple(w, n)
    ensures Multiple(Times(v, w), m + n)
  {
    hide Scaled, Whole, Times;
    ScaledMul(v, m, w, n);
    WholeMul(Scaled(v, m), Scaled(w, n));
  }

  lemma WholeMultiple(v: real, n: int)
    requires Whole(v)
    ensures Multiple(v, n)
  {
    hide Whole, Times, P10;
    WholeP10(n);
    WholeMul(v, P10(n));
  }

  // ---- Truncation ----

  /** The whole part, rounded toward zero. */
  function Trunc(x: real): int { if x >= 0.0 then x.Floor else -((-x).Floor) }

  /** `RatTruncate`: toward zero to `scale` places; a negative scale counts as zero. */
  function Truncate(r: real, scale: int): real {
    if r == 0.0 then 0.0 else Trunc(Scaled(r, scale)) as real / P10(scale)
  }

  lemma TruncateScaled(r: real, scale: int)
    ensures Scaled(Truncate(r, scale), scale) == Trunc(Scaled(r, scale)) as real
  {
    hide Scaled;
    Unscale(Trunc(Scaled(r, scale)) as real, scale);
    ScaledZero(scale);
  }

  /** The result has at most `scale` digits after the point. */
  lemma TruncateIsMultiple(r: real, scale: int)
    ensures Multiple(Truncate(r, scale), scale)
  {
    hide Scaled, Trunc, Truncate;
    TruncateScaled(r, scale);
    WholeOf(Trunc(Scaled(r, scale)));
  }

  lemma TruncOfWhole(x: real)
    requires Whole(x)
    ensures Trunc(x) as real == x
  {
    var m := x.Floor;
    WholeOf(-m);
    assert -x == (-m) as real;
  }

  /** Nothing is lost when the number already has no more digits. */
  lemma TruncateExact(r: real, scale: int)
    requires Multiple(r, scale)
    ensures Truncate(r, scale) == r
  {
    hide Scaled, Trunc, Truncate, Whole;
    TruncateScaled(r, scale);
    TruncOfWhole(Scaled(r, scale));
    ScaledInjective(Truncate(r, scale), r, scale);
  }

  lemma TruncError(x: real)
    ensures var d := x - Trunc(x) as real;
      Abs(d) < 1.0 && (d == 0.0 || (d > 0.0 <==> x > 0.0))
  {
  }

  /** What is cut off is less than one unit in the last place and has the sign of the number. */
  lemma TruncateError(r: real, scale: int)
    ensures var e := r - Truncate(r, scale);
      Scaled(Abs(e), scale) < 1.0 && (e == 0.0 || (e > 0.0 <==> r > 0.0))
  {
    hide Scaled, Trunc, Truncate;
    var t := Truncate(r, scale);
    TruncateScaled(r, scale);
    ScaledAdd(r, t, scale);
    TruncError(Scaled(r, scale));
    ScaledSign(r - t, scale);
    ScaledSign(r, scale);
  }

  /** The division with remainder that `~` performs: exact, with a remainder smaller than one unit of the
      quotient's last place times the divisor, zero or of the dividend's sign. */
  lemma DivisionIsExact(a: real, fa: int, b: real, fb: int, scale: int, remScale: int)
    requires b != 0.0 && Multiple(a, fa) && Multiple(b, fb) && 0 <= fb && 0 <= scale
    requires fa <= remScale && scale + fb <= remScale
    ensures var q := Truncate(a / b, scale);
      var rem := Truncate(a - Times(q, b), remScale);
      && Times(q, b) + rem == a
      && Scaled(Abs(rem), scale) < Abs(b)
      && (rem == 0.0 || (rem > 0.0 <==> a > 0.0))
  {
    hide Scaled, Truncate, Multiple;
    var q := Truncate(a / b, scale);
    TruncateIsMultiple(a / b, scale);
    MultipleMul(q, scale, b, fb);
    MultipleMore(Times(q, b), scale + fb, remScale);
    MultipleMore(a, fa, remScale);
    MultipleAdd(a, Times(q, b), remScale);
    TruncateExact(a - Times(q, b), remScale);
    TruncateError(a / b, scale);
    ZeroDivided(a, b);
    TruncateOfZero(scale);
    RemainderBounds(a, b, q, scale);
  }

  lemma RemainderBounds(a: real, b: real, q: real, scale: int)
    requires b != 0.0
    requires var e := a / b - q; Scaled(Abs(e), scale) < 1.0 && (e == 0.0 || (e > 0.0 <==> a / b > 0.0))
    requires a == 0.0 ==> q == 0.0
    ensures var rem := a - Times(q, b);
      Scaled(Abs(rem), scale) < Abs(b) && (rem == 0.0 || (rem > 0.0 <==> a > 0.0))
  {
    hide Scaled, Times;
    var x := a / b;
    var e := x - q;
    DivTimes(a, b);
    Distribute(x, q, b);
    ErrorTimes(e, b, scale);
    ZeroDivided(a, b);
    SameSign(e, x, b);
  }

  lemma TruncateOfZero(scale: int)
    ensures Truncate(0.0, scale) == 0.0
  {
  }

  lemma ZeroDivided(a: real, b: real)
    requires b != 0.0
    ensures a / b == 0.0 <==> a == 0.0
  {
    assert a / b * b == a;
  }

  lemma ErrorTimes(e: real, b: real, scale: int)
    requires b != 0.0 && Scaled(Abs(e), scale) < 1.0
    ensures Scaled(Abs(Times(e, b)), scale) < Abs(b)
  {
    hide P10, Times;
    var p, c, f := P10(scale), Abs(b), Abs(e);
    AbsProduct(e, b);
    TimesAssoc(f, c, p);
    TimesComm(c, p);
    TimesAssoc(f, p, c);
    Shrinks(Times(f, p), c);
  }

  lemma Shrinks(x: real, c: real)
    requires x < 1.0 && c > 0.0
    ensures Times(x, c) < c
  {
  }

  lemma AbsProduct(e: real, b: real)
    ensures Abs(Times(e, b)) == Times(Abs(e), Abs(b))
  {
  }

  lemma SameSign(e: real, x: real, b: real)
    requires b != 0.0 && (e == 0.0 || (e > 0.0 <==> x > 0.0))
    requires e != 0.0 ==> x != 0.0
    ensures Times(e, b) == 0.0 || (Times(e, b) > 0.0 <==> Times(x, b) > 0.0)
  {
  }
}
