/** The values dc calculates with and its arithmetic on them. */
module DcValues {
  import opened Options
  import opened Decimal
  import opened SquareRoot
  import NumberTheory
  import Digits
  import DcText

  /** A string, or a number with the count of digits it shows after the point and the mark of a negative zero. */
  datatype Value = Str(text: string) | Num(rat: real, digits: int, negZero: bool)

  type Number = v: Value | v.Num? witness Num(0.0, 0, false)

  /** The digit count is true: the number has no more digits after the point; a negative count means none. */
  ghost predicate Truthful(v: Value) { v.Num? ==> Multiple(v.rat, v.digits) }

  // ---- Machine integers ----

  const TWO63: int := 0x8000_0000_0000_0000

  /** Arithmetic on `int` keeps the low 64 bits. */
  function Wrap64(x: int): (r: int)
    ensures -TWO63 <= r < TWO63
    ensures -TWO63 <= x < TWO63 ==> r == x
  {
    (x + TWO63) % (2 * TWO63) - TWO63
  }

  /** `RatToInt64`. */
  function ToInt(r: real): (i: int)
    ensures -TWO63 <= i < TWO63
  {
    Wrap64(Trunc(r))
  }

  function Max(a: int, b: int): int { if a > b then a else b }

  function Min(a: int, b: int): int { if a > b then b else a }

  // ---- Conversions ----

  function Int(n: int): Number { Num(n as real, 0, false) }

  lemma IntIsTruthful(n: int)
    ensures Truthful(Int(n)) && Truthful(Num(n as real, n, false))
  {
    hide Multiple;
    WholeOf(n);
    WholeMultiple(n as real, 0);
    WholeMultiple(n as real, n);
  }

  /** A string counts as zero where a number is wanted. */
  function AsNumber(v: Value): Number { if v.Str? then Int(0) else v }

  lemma AsNumberIsTruthful(v: Value)
    requires Truthful(v)
    ensures Truthful(AsNumber(v))
  {
    IntIsTruthful(0);
  }

  /** Duplicating drops the mark of a negative zero. */
  function Copied(v: Value): Value { if v.Str? then v else Num(v.rat, v.digits, false) }

  /** What some error paths put back: the number without its digit count. */
  function Untagged(v: Number): Number { Num(v.rat, 0, false) }

  /** The number put back can show fewer digits than it has, exactly when it is not whole. */
  lemma UntaggedIsTruthful(v: Number)
    ensures Truthful(Untagged(v)) <==> Whole(v.rat)
  {
    assert P10(0) == 1.0;
    assert Scaled(v.rat, 0) == v.rat;
  }

  predicate IsNegative(v: Number) { v.rat < 0.0 || (v.rat == 0.0 && v.negZero) }

  // ---- Arithmetic ----

  function Sum(a: Number, b: Number): Number { Num(a.rat + b.rat, Max(a.digits, b.digits), false) }

  function Difference(a: Number, b: Number): Number { Num(a.rat - b.rat, Max(a.digits, b.digits), false) }

  function ProductDigits(a: Number, b: Number, scale: int): int {
    Min(Wrap64(a.digits + b.digits), Max(Max(scale, a.digits), b.digits))
  }

  /** The zero mark is set when the sign rule says negative and nothing is left. */
  function Signed(r: real, digits: int, negative: bool): Number { Num(r, digits, negative && r == 0.0) }

  function Product(a: Number, b: Number, scale: int): Number {
    var fd := ProductDigits(a, b, scale);
    Signed(Truncate(Times(a.rat, b.rat), fd), fd, IsNegative(a) != IsNegative(b))
  }

  function Quotient(a: Number, b: Number, scale: int): Number
    requires b.rat != 0.0
  {
    Signed(Truncate(a.rat / b.rat, scale), scale, IsNegative(a) != IsNegative(b))
  }

  function RemainderDigits(a: Number, b: Number, scale: int): int { Max(a.digits, Wrap64(scale + b.digits)) }

  function Remainder(a: Number, b: Number, scale: int): Number
    requires b.rat != 0.0
  {
    var q, fd := Truncate(a.rat / b.rat, scale), RemainderDigits(a, b, scale);
    Signed(Truncate(a.rat - Times(q, b.rat), fd), fd, IsNegative(a))
  }

  lemma SumIsTruthful(a: Number, b: Number)
    requires Truthful(a) && Truthful(b)
    ensures Truthful(Sum(a, b)) && Truthful(Difference(a, b))
  {
    hide Multiple;
    var n := Max(a.digits, b.digits);
    MultipleMore(a.rat, a.digits, n);
    MultipleMore(b.rat, b.digits, n);
    MultipleAdd(a.rat, b.rat, n);
  }

  lemma SignedIsTruthful(r: real, digits: int, negative: bool)
    ensures Truthful(Signed(Truncate(r, digits), digits, negative))
  {
    hide Multiple, Truncate;
    TruncateIsMultiple(r, digits);
  }

  /** A product loses less than one unit of its last place and never grows; it is exact unless the scale cuts it. */
  lemma ProductIsNear(a: Number, b: Number, scale: int)
    requires Truthful(a) && Truthful(b)
    ensures var p := Product(a, b, scale); var e := Times(a.rat, b.rat) - p.rat;
      && Scaled(Abs(e), p.digits) < 1.0 && (e == 0.0 || (e > 0.0 <==> Times(a.rat, b.rat) > 0.0))
    ensures 0 <= a.digits && 0 <= b.digits && a.digits + b.digits <= Max(Max(scale, a.digits), b.digits) < TWO63 ==>
      Product(a, b, scale).rat == Times(a.rat, b.rat)
  {
    hide Multiple, Truncate, Times, Scaled;
    TruncateError(Times(a.rat, b.rat), ProductDigits(a, b, scale));
    if 0 <= a.digits && 0 <= b.digits && a.digits + b.digits <= Max(Max(scale, a.digits), b.digits) < TWO63 {
      MultipleMul(a.rat, a.digits, b.rat, b.digits);
      TruncateExact(Times(a.rat, b.rat), a.digits + b.digits);
    }
  }

  /** The remainder is kept to as many digits as a quotient of `scale` digits times the divisor can have. */
  predicate DigitsSuffice(da: int, db: int, scale: int) {
    scale + Max(0, db) <= Max(0, Max(da, Wrap64(scale + db)))
  }

  /** Division with remainder loses nothing when its digits suffice: quotient times divisor plus remainder is the
      dividend, the remainder is smaller than one unit of the quotient's last place times the divisor, and it is
      zero or has the dividend's sign. */
  lemma DivisionLosesNothing(a: Number, b: Number, scale: int)
    requires b.rat != 0.0 && Truthful(a) && Truthful(b) && 0 <= scale
    requires DigitsSuffice(a.digits, b.digits, scale)
    ensures var q, rem := Quotient(a, b, scale).rat, Remainder(a, b, scale).rat;
      && Times(q, b.rat) + rem == a.rat
      && Scaled(Abs(rem), scale) < Abs(b.rat)
      && (rem == 0.0 || (rem > 0.0 <==> a.rat > 0.0))
  {
    hide Multiple, Truncate, Scaled, Times;
    var fd := RemainderDigits(a, b, scale);
    MultipleMore(b.rat, b.digits, Max(0, b.digits));
    DivisionIsExact(a.rat, a.digits, b.rat, Max(0, b.digits), scale, Max(0, fd));
    NegativeTruncate(a.rat - Times(Truncate(a.rat / b.rat, scale), b.rat), fd);
  }

  lemma NegativeTruncate(r: real, n: int)
    ensures Truncate(r, n) == Truncate(r, Max(0, n))
  {
    hide Scaled;
    NegativeScale(r, n);
    assert n < 0 ==> P10(n) == P10(0);
  }

  predicate Exact(a: Number, b: Number, scale: int)
    requires b.rat != 0.0
  {
    Times(Quotient(a, b, scale).rat, b.rat) + Remainder(a, b, scale).rat == a.rat
  }

  /** Three units of the last of m places, the divisor that shows every loss. */
  function Three(m: nat): (r: real)
    ensures r > 0.0
  {
    3.0 / P10(m)
  }

  /** One divided by it, in units of the last place of the quotient, is a row of threes and a third. */
  lemma OneByThree(m: nat, scale: nat)
    ensures Scaled(1.0 / Three(m), scale) == Thirds(scale + m) as real + 1.0 / 3.0
  {
    hide Times;
    P10Add(m, scale);
    var p := P10(m);
    assert 1.0 / (3.0 / p) == p / 3.0 by {
      Flip(p);
    }
    TimesThird(p, P10(scale));
    ThirdsValue(m + scale);
  }

  lemma Flip(p: real)
    requires p > 0.0
    ensures 3.0 / p != 0.0 && 1.0 / (3.0 / p) == p / 3.0
  {
    var x := 3.0 / p;
    assert x * p == 3.0;
    assert x * (p / 3.0) == 1.0;
    assert (x * (p / 3.0)) / x == p / 3.0;
  }

  lemma TimesThird(x: real, y: real)
    ensures Times(x / 3.0, y) == Times(x, y) / 3.0
  {
  }

  function Thirds(n: nat): nat { if n == 0 then 0 else 10 * Thirds(n - 1) + 3 }

  lemma {:induction false} ThirdsValue(n: nat)
    ensures P10(n) == 3.0 * Thirds(n) as real + 1.0
  {
    if n > 0 {
      ThirdsValue(n - 1);
    }
  }

  /** The quotient is that row of threes, and all but the last unit of one comes back. */
  lemma QuotientOfOne(m: nat, scale: nat)
    ensures var q := Truncate(1.0 / Three(m), scale);
      Scaled(1.0 - Times(q, Three(m)), scale + m) == 1.0
  {
    var x, b, t := 1.0 / Three(m), Three(m), Thirds(scale + m);
    var q := Truncate(x, scale);
    OneByThree(m, scale);
    assert Trunc(t as real + 1.0 / 3.0) == t;
    TruncateScaled(x, scale);
    Unscale(3.0, m);
    hide Scaled, Truncate, Trunc, Times, Three, Thirds;
    assert Scaled(q, scale) == t as real;
    assert Scaled(b, m) == 3.0 by {
      ThreeIs(m);
    }
    ScaledMul(q, scale, b, m);
    ScaledAdd(1.0, Times(q, b), scale + m);
    ScaledOne(scale + m);
    ThirdsValue(scale + m);
    TimesThree(t as real);
  }

  lemma ThreeIs(m: nat)
    ensures Three(m) == 3.0 / P10(m)
  {
  }

  lemma ScaledOne(n: nat)
    ensures Scaled(1.0, n) == P10(n)
  {
    TimesOne(P10(n));
  }

  lemma TimesThree(x: real)
    ensures Times(x, 3.0) == 3.0 * x
  {
  }

  /** A remainder of one unit of a place that is cut off is lost. */
  lemma UnitIsCut(r: real, n: nat, k: nat)
    requires Scaled(r, n) == 1.0 && k < n
    ensures r > 0.0 && Truncate(r, k) == 0.0
  {
    ScaledSign(r, n);
    ScaledSign(r, k);
    ScaledMore(r, k, n);
    var t := Scaled(r, k);
    hide Scaled;
    P10Step(n - k);
    TimesGrows(t, P10(n - k));
    assert 0.0 < t < 1.0 by {
      assert P10(n - k - 1) >= 1.0;
      assert P10(n - k) >= 10.0;
    }
    assert Trunc(t) == 0;
  }

  lemma TimesGrows(t: real, p: real)
    ensures t >= 1.0 && p > 1.0 ==> Times(t, p) > 1.0
  {
    if t >= 1.0 && p > 1.0 {
      assert t * p >= 1.0 * p;
    }
  }

  /** The digits of the remainder suffice exactly when every division with those digit counts is exact:
      otherwise one divided by three units of the divisor's last place loses a unit. */
  lemma ExactWhenDigitsSuffice(da: int, db: int, scale: nat)
    ensures DigitsSuffice(da, db, scale) <==>
      forall a: Number, b: Number | a.digits == da && b.digits == db && b.rat != 0.0 && Truthful(a) && Truthful(b) ::
        Exact(a, b, scale)
  {
    hide Truthful, Quotient, Remainder, Times;
    if DigitsSuffice(da, db, scale) {
      forall a: Number, b: Number | a.digits == da && b.digits == db && b.rat != 0.0 && Truthful(a) && Truthful(b)
        ensures Exact(a, b, scale)
      {
        DivisionLosesNothing(a, b, scale);
      }
    } else {
      var a, b := OneLoses(da, db, scale);
      assert !Exact(a, b, scale);
    }
  }

  lemma OneLoses(da: int, db: int, scale: nat) returns (a: Number, b: Number)
    requires !DigitsSuffice(da, db, scale)
    ensures a.rat == 1.0 && b.rat == Three(Max(0, db)) && a.digits == da && b.digits == db
    ensures Truthful(a) && Truthful(b) && !Exact(a, b, scale)
  {
    var m := Max(0, db);
    a, b := Num(1.0, da, false), Num(Three(m), db, false);
    hide Truncate, Multiple, Times, Three;
    assert Multiple(1.0, da) by {
      WholeOf(1);
      WholeMultiple(1.0, da);
    }
    assert Multiple(Three(m), db) by {
      ThreeIsMultiple(m);
      NegativeMultiple(Three(m), db);
    }
    var q, fd := Truncate(1.0 / Three(m), scale), RemainderDigits(a, b, scale);
    QuotientOfOne(m, scale);
    NegativeTruncate(1.0 - Times(q, Three(m)), fd);
    UnitIsCut(1.0 - Times(q, Three(m)), scale + m, Max(0, fd));
  }

  lemma ThreeIsMultiple(m: nat)
    ensures Multiple(Three(m), m)
  {
    Unscale(3.0, m);
    WholeOf(3);
  }

  lemma NegativeMultiple(v: real, n: int)
    ensures Multiple(v, n) == Multiple(v, Max(0, n))
  {
    hide Scaled;
    NegativeScale(v, n);
  }

  /** Digit counts can wrap: at the greatest scale, squaring what `K` pushes gives a count of -2. */
  lemma CountsCanWrap()
    ensures var k := Num((TWO63 - 1) as real, TWO63 - 1, false); Truthful(k) && Product(k, k, TWO63 - 1).digits == -2
  {
    hide Multiple, Truncate, Times;
    IntIsTruthful(TWO63 - 1);
  }

  /** Such a divisor arises: what `K K - 3 +` and `K K - 1 +` leave at the greatest scale multiplies to a three with
      a count of -2, which later, at scale 2, no longer divides one exactly. */
  lemma WrappedDivisorLoses()
    ensures var k := Num((TWO63 - 1) as real, TWO63 - 1, false);
      var three, one := Sum(Difference(k, k), Int(3)), Sum(Difference(k, k), Int(1));
      var b := Product(three, one, TWO63 - 1);
      Truthful(k) && b.rat == 3.0 && b.digits == -2 && !Exact(Int(1), b, 2)
  {
    hide Multiple, Truncate, Times;
    IntIsTruthful(TWO63 - 1);
    var k := Num((TWO63 - 1) as real, TWO63 - 1, false);
    var three, one := Sum(Difference(k, k), Int(3)), Sum(Difference(k, k), Int(1));
    assert three.rat == 3.0 && three.digits == TWO63 - 1 && one.rat == 1.0 && one.digits == TWO63 - 1;
    TimesOne(3.0);
    WholeOf(3);
    WholeMultiple(3.0, -2);
    TruncateExact(3.0, -2);
    var b := Product(three, one, TWO63 - 1);
    LosesByThree(b);
  }

  lemma LosesByThree(b: Number)
    requires b.rat == 3.0 && b.digits == -2
    ensures !Exact(Int(1), b, 2)
  {
    hide Truncate, Times;
    QuotientOfOne(0, 2);
    assert Three(0) == 3.0 by {
      assert P10(0) == 1.0;
    }
    UnitIsCut(1.0 - Times(Truncate(1.0 / 3.0, 2), 3.0), 2, 0);
  }

  // ---- Powers ----

  function RealPow(b: real, e: int): real
    decreases e
  {
    if e <= 0 then 1.0 else Times(b, RealPow(b, e - 1))
  }

  lemma {:induction false} PowAdd(b: real, m: nat, n: nat)
    ensures RealPow(b, m + n) == Times(RealPow(b, m), RealPow(b, n))
    decreases m
  {
    hide Times;
    if m == 0 {
      TimesOne(RealPow(b, n));
    } else {
      PowAdd(b, m - 1, n);
      TimesAssoc(b, RealPow(b, m - 1), RealPow(b, n));
    }
  }

  lemma {:induction false} PowOfSquare(b: real, n: nat)
    ensures RealPow(Times(b, b), n) == RealPow(b, 2 * n)
  {
    hide Times;
    if n > 0 {
      PowOfSquare(b, n - 1);
      TimesAssoc(b, b, RealPow(b, 2 * n - 2));
    }
  }

  /** Square and multiply; a negative exponent leaves one. */
  method PowInt(base: real, exp: int) returns (r: real)
    ensures r == RealPow(base, exp)
  {
    hide Times, RealPow;
    r := 1.0;
    var b, e := base, exp;
    TimesOne(RealPow(b, e));
    NoPower(base, exp);
    while e > 0
      invariant exp > 0 ==> e >= 0 && Times(r, RealPow(b, e)) == RealPow(base, exp)
      invariant exp <= 0 ==> r == 1.0 && e == exp
      decreases e
    {
      PowHalves(b, e);
      if e % 2 == 1 {
        TimesAssoc(r, b, RealPow(Times(b, b), e / 2));
        r := Times(r, b);
      }
      b := Times(b, b);
      e := e / 2;
    }
    NoPower(b, e);
    TimesOne(r);
  }

  lemma NoPower(b: real, e: int)
    ensures e <= 0 ==> RealPow(b, e) == 1.0
  {
  }

  lemma PowHalves(b: real, e: int)
    requires e > 0
    ensures var h := RealPow(Times(b, b), e / 2); RealPow(b, e) == if e % 2 == 1 then Times(b, h) else h
  {
    hide Times;
    PowOfSquare(b, e / 2);
  }

  function PowerDigits(a: Number, exp: int, scale: int): int { Min(Wrap64(exp * a.digits), Max(scale, a.digits)) }

  /** The branches of `^`; the exponent is cut to a 64-bit integer, and the least one cannot be negated. */
  function Power(a: Number, b: Number, scale: int): Number {
    var exp := ToInt(b.rat);
    var odd := exp % 2 != 0;
    if exp == 0 then Int(1)
    else if a.rat == 0.0 then Signed(0.0, 0, IsNegative(a) && odd)
    else if exp < 0 then Signed(Truncate(Inverse(RealPow(a.rat, Wrap64(-exp))), scale), scale, IsNegative(a) && odd)
    else
      var fd := PowerDigits(a, exp, scale);
      Signed(Truncate(RealPow(a.rat, exp), fd), fd, IsNegative(a) && odd)
  }

  function Inverse(x: real): real { if x == 0.0 then 0.0 else 1.0 / x }

  /** A power of a number that is not zero can be inverted. */
  lemma {:induction false} PowNotZero(b: real, e: int)
    requires b != 0.0
    ensures RealPow(b, e) != 0.0
    decreases e
  {
    if e > 0 {
      PowNotZero(b, e - 1);
      assert Times(b, RealPow(b, e - 1)) != 0.0;
    }
  }

  lemma PowerIsTruthful(a: Number, b: Number, scale: int)
    ensures Truthful(Power(a, b, scale))
  {
    hide Multiple, Truncate, RealPow, Inverse;
    IntIsTruthful(1);
    IntIsTruthful(0);
    var exp := ToInt(b.rat);
    SignedIsTruthful(Inverse(RealPow(a.rat, Wrap64(-exp))), scale, IsNegative(a) && exp % 2 != 0);
    SignedIsTruthful(RealPow(a.rat, exp), PowerDigits(a, exp, scale), IsNegative(a) && exp % 2 != 0);
  }

  lemma {:induction false} PowMultiple(b: real, d: nat, e: nat)
    requires Multiple(b, d)
    ensures Multiple(RealPow(b, e), e * d)
  {
    hide Multiple, Times;
    if e == 0 {
      WholeOf(1);
      WholeMultiple(1.0, 0);
    } else {
      PowMultiple(b, d, e - 1);
      Digits.ProductIsNat(e - 1, d);
      MultipleMul(b, d, RealPow(b, e - 1), (e - 1) * d);
      assert d + (e - 1) * d == e * d;
    }
  }

  /** A positive power loses less than one unit of its last place, and nothing while the scale allows its digits. */
  lemma PowerIsNear(a: Number, b: Number, scale: int)
    requires Truthful(a) && 0 <= a.digits && 0 < ToInt(b.rat)
    ensures var p := Power(a, b, scale); Scaled(Abs(RealPow(a.rat, ToInt(b.rat)) - p.rat), p.digits) < 1.0
    ensures ToInt(b.rat) * a.digits <= Max(scale, a.digits) < TWO63 ==>
      Power(a, b, scale).rat == RealPow(a.rat, ToInt(b.rat))
  {
    hide Multiple, Truncate, Scaled, Times;
    var exp := ToInt(b.rat);
    var fd := PowerDigits(a, exp, scale);
    ZeroPower(a.rat, exp);
    ScaledZero(0);
    TruncateError(RealPow(a.rat, exp), fd);
    PowMultiple(a.rat, a.digits, exp);
    Digits.ProductIsNat(exp, a.digits);
    if exp * a.digits <= Max(scale, a.digits) < TWO63 {
      TruncateExact(RealPow(a.rat, exp), fd);
    }
  }

  lemma ZeroPower(b: real, e: int)
    requires e > 0
    ensures b == 0.0 ==> RealPow(b, e) == 0.0
  {
    TimesOne(RealPow(b, e - 1));
  }

  // ---- Roots ----

  /** A fraction in lowest terms, as `big.Rat` keeps it. */
  function Lowest(m: nat, n: nat): (r: (nat, nat))
    requires n > 0
    ensures r.1 > 0 && r.0 as real / r.1 as real == m as real / n as real
  {
    NumberTheory.GcdDivides(n, m);
    var g := NumberTheory.Gcd(n, m);
    ReducedFraction(m, n, g);
    (m / g, n / g)
  }

  lemma ReducedFraction(m: nat, n: nat, g: nat)
    requires n > 0 && g > 0 && m % g == 0 && n % g == 0
    ensures n / g > 0 && (m / g) as real / (n / g) as real == m as real / n as real
  {
    var p, q := m / g, n / g;
    assert m == p * g && n == q * g;
    assert q > 0 by {
      assert q <= 0 ==> q * g <= 0;
    }
    MulReal(p, g);
    MulReal(q, g);
    CancelFraction(p as real, q as real, g as real);
  }

  lemma CancelFraction(p: real, q: real, g: real)
    requires q > 0.0 && g > 0.0
    ensures q * g != 0.0 && p / q == (p * g) / (q * g)
  {
    assert Times(q, g) > 0.0 by {
      TimesSign(q, g);
    }
    var x := p / q;
    assert x * q == p;
    assert p * g == x * (q * g);
    var c := q * g;
    assert (x * c) / c == x;
  }

  function Root(a: Number, scale: int): Number
    requires 0 <= scale && a.rat >= 0.0
  {
    ScaledSign(a.rat, a.digits);
    var f := Lowest(Scaled(a.rat, a.digits).Floor, Ten(a.digits));
    var fd := Max(scale, a.digits);
    Num(Truncate(SqrtOf(f.0, f.1, scale), fd), fd, false)
  }

  lemma RootIsTruthful(a: Number, scale: int)
    requires 0 <= scale && a.rat >= 0.0
    ensures Truthful(Root(a, scale))
  {
    hide Multiple, Truncate, Scaled, Ten;
    ScaledSign(a.rat, a.digits);
    var f := Lowest(Scaled(a.rat, a.digits).Floor, Ten(a.digits));
    TruncateIsMultiple(SqrtOf(f.0, f.1, scale), Max(scale, a.digits));
  }

  /** Up to two digits beyond the scale, the root is the greatest number of its digits whose square fits. */
  lemma RootIsGreatestNumber(a: Number, scale: int)
    requires 0 <= scale && a.rat >= 0.0 && Truthful(a) && a.digits <= scale + 2
    ensures IsRoot(Root(a, scale).rat, a.rat, Max(scale, a.digits))
  {
    hide Truncate, Scaled, Ten, IsRoot, SqrtOf, Lowest;
    ScaledSign(a.rat, a.digits);
    var m := Scaled(a.rat, a.digits).Floor;
    var f := Lowest(m, Ten(a.digits));
    assert m as real / Ten(a.digits) as real == a.rat by {
      TenIsP10(a.digits);
      Unscale(m as real, a.digits);
      ScaledInjective(m as real / P10(a.digits), a.rat, a.digits);
    }
    RootIsGreatestWithinGuard(f.0, f.1, scale, Max(scale, a.digits));
  }

  /** The operand whose root comes out too small: four units of the working precision, squared, plus one. */
  function Tight(scale: nat): nat { 16 * (Ten(scale + 2) * Ten(scale + 2)) + 1 }

  /** Its integer root drops everything behind the point. */
  lemma TightRoot(scale: nat)
    ensures SqrtOf(Tight(scale), 1, scale) == 4.0 * Ten(scale + 2) as real
  {
    var w := Ten(scale + 2);
    hide Ten, ISqrt, SqrtOf;
    TightISqrt(scale);
    SqrtOfWhole(Tight(scale), scale);
    QuotientCancels(w as real);
    RealOfSquare(w);
  }

  lemma RealOfSquare(w: nat)
    ensures (4 * (w * w)) as real == 4.0 * (w as real * w as real)
  {
    MulReal(w, w);
  }

  lemma TightISqrt(scale: nat)
    ensures var w := Ten(scale + 2); ISqrt(Tight(scale) * 1 * Ten(2 * (scale + 2))) == 4 * (w * w)
  {
    hide Ten, ISqrt;
    TenSquare(scale + 2);
    TightSquares(Ten(scale + 2));
    RootUnique(Tight(scale) * 1 * Ten(2 * (scale + 2)), 4 * (Ten(scale + 2) * Ten(scale + 2)));
  }

  lemma SqrtOfWhole(num: nat, scale: nat)
    requires num > 0
    ensures SqrtOf(num, 1, scale) == ISqrt(num * 1 * Ten(2 * (scale + 2))) as real / (1.0 * Ten(scale + 2) as real)
  {
    hide Ten, ISqrt;
    assert 1 * Ten(scale + 2) == Ten(scale + 2);
  }

  lemma TightSquares(w: nat)
    requires w >= 1
    ensures var v, n := w * w, 4 * (w * w);
      n * n <= (16 * v + 1) * 1 * v < (n + 1) * (n + 1)
  {
    var v := w * w;
    assert (4 * v) * (4 * v) == 16 * (v * v);
    assert (16 * v + 1) * v == 16 * (v * v) + v;
    assert (4 * v + 1) * (4 * v + 1) == 16 * (v * v) + 8 * v + 1;
  }

  lemma QuotientCancels(w: real)
    requires w >= 1.0
    ensures (4.0 * (w * w)) / (1.0 * w) == 4.0 * w
  {
    assert (4.0 * w) * w / w == 4.0 * w;
  }

  /** One more unit of the third digit beyond the scale still fits. */
  lemma TightFits(scale: nat) returns (u: real)
    ensures Multiple(u, scale + 3) && u > 4.0 * Ten(scale + 2) as real && Times(u, u) <= Tight(scale) as real
  {
    var w, d := Ten(scale + 2), 1.0 / P10(scale + 3);
    u := 4.0 * w as real + d;
    assert Multiple(u, scale + 3) by {
      Unscale(1.0, scale + 3);
      WholeOf(1);
      WholeOf(4 * w);
      WholeMultiple((4 * w) as real, scale + 3);
      MultipleAdd((4 * w) as real, d, scale + 3);
    }
    TenIsP10(scale + 2);
    P10Step(scale + 3);
    assert Times(10.0, w as real) == 10.0 * w as real;
    MulReal(w, w);
    hide Ten, P10;
    TightSquare(w as real, d);
  }

  lemma TightSquare(w: real, d: real)
    requires w >= 1.0 && d == 1.0 / (10.0 * w)
    ensures Times(4.0 * w + d, 4.0 * w + d) <= 16.0 * (w * w) + 1.0
  {
    assert d * (10.0 * w) == 1.0;
    assert w * d == 0.1;
    assert 0.0 <= d <= 0.1 by {
      assert d * w >= 0.0;
      assert d > 0.1 ==> d * w > 0.1;
    }
    assert d * d <= 0.1 * 0.1;
    var m := 4.0 * w;
    assert Times(m + d, m + d) == m * m + 2.0 * (m * d) + d * d;
    assert m * d == 0.4;
    assert m * m == 16.0 * (w * w);
  }

  /** A whole number in lowest terms stands over one. */
  lemma WholeIsLowest(k: nat, n: nat)
    requires k > 1 && n > 0
    ensures Lowest(k * n, n) == (k, 1)
  {
    assert k * n > n by {
      assert (k - 1) * n >= 1;
    }
    NumberTheory.DivModUnique(n, 0, n, k * n);
    NumberTheory.MultipleMod(k, n);
    assert NumberTheory.Gcd(n, 0) == n;
    assert NumberTheory.Gcd(k * n, n) == NumberTheory.Gcd(n, (k * n) % n);
    assert NumberTheory.Gcd(n, k * n) == NumberTheory.Gcd(k * n, n % (k * n));
    NumberTheory.DivModUnique(k * n, k, 0, n);
    NumberTheory.DivModUnique(n, 1, 0, n);
  }

  lemma TightLoses(scale: nat, f: nat) returns (a: Number)
    requires f > scale + 2
    ensures a.digits == f && a.rat == Tight(scale) as real && Truthful(a)
    ensures !IsRoot(Root(a, scale).rat, a.rat, f)
  {
    a := Num(Tight(scale) as real, f, false);
    var k, w := Tight(scale), Ten(scale + 2);
    assert k > 1 by {
      assert w * w >= 1;
    }
    hide Tight, Ten, SqrtOf, Lowest, Truncate, Multiple;
    WholeOf(k);
    WholeMultiple(k as real, f);
    assert Scaled(k as real, f) == (k * Ten(f)) as real by {
      TenIsP10(f);
      MulReal(k, Ten(f));
    }
    WholeOf(k * Ten(f));
    WholeIsLowest(k, Ten(f));
    TightRoot(scale);
    var t := 4.0 * w as real;
    WholeOf(4 * w);
    WholeMultiple((4 * w) as real, f);
    TruncateExact(t, f);
    var u := TightFits(scale);
    MultipleMore(u, scale + 3, f);
  }

  /** Two digits beyond the scale are the limit: the roots of all operands with f digits are greatest exactly
      when f is no more than that. */
  lemma RootsAreGreatestWhen(scale: nat, f: int)
    ensures f <= scale + 2 <==>
      forall a: Number | a.digits == f && a.rat >= 0.0 && Truthful(a) :: IsRoot(Root(a, scale).rat, a.rat, Max(scale, f))
  {
    hide IsRoot, Root, Truthful;
    if f <= scale + 2 {
      forall a: Number | a.digits == f && a.rat >= 0.0 && Truthful(a)
        ensures IsRoot(Root(a, scale).rat, a.rat, Max(scale, f))
      {
        RootIsGreatestNumber(a, scale);
      }
    } else {
      var a := TightLoses(scale, f);
      TightIsPositive(scale);
      assert !IsRoot(Root(a, scale).rat, a.rat, Max(scale, f));
    }
  }

  lemma TightIsPositive(scale: nat)
    ensures Tight(scale) as real >= 0.0
  {
  }

  // ---- Modular powers ----

  /** `|` on whole parts; a negative exponent, which needs a modular inverse, is not modelled. */
  function ModPower(base: real, exp: real, mod: real): Option<int> {
    var b, e, m := Trunc(base), Trunc(exp), Trunc(mod);
    if exp == 0.0 then Some(1)
    else if m == 0 then Some(0)
    else if e < 0 then None
    else Some(NumberTheory.Pow(b, e) % m)
  }

  // ---- Texts ----

  function Shown(v: Value): string { if v.Str? then v.text else DcText.Format(v.rat, v.digits) }

  function CharSize(c: char): nat {
    if c as int < 0x80 then 1 else if c as int < 0x800 then 2 else if c as int < 0x10000 then 3 else 4
  }

  /** The length in bytes. */
  function Bytes(s: string): nat { if s == "" then 0 else CharSize(s[0]) + Bytes(s[1..]) }

  function Unsigned(s: string): string { if s != "" && s[0] == '-' then s[1..] else s }

  function Without(s: string, c: char): string {
    if s == "" then "" else (if s[0] == c then "" else [s[0]]) + Without(s[1..], c)
  }

  function Stripped(s: string): string { if s != "" && s[0] == '0' then Stripped(s[1..]) else s }

  /** What `Z` counts: bytes of a string, digits of a number. */
  function Length(v: Value, scale: int): int {
    if v.Str? then Bytes(v.text)
    else
      var s := Without(Unsigned(DcText.Format(v.rat, scale)), '.');
      var t := Stripped(if |s| < v.digits then s + Digits.Zeros(v.digits - |s|) else s);
      if t == "" then 1 else |t|
  }

  function Character(v: Value): string {
    if v.Str? then v.text else [(ToInt(v.rat) % 256) as char]
  }

  function Unescaped(s: string): string
    decreases |s|
  {
    if s == "" then ""
    else if s[0] == '\\' && |s| > 1 then
      (match s[1]
       case 'n' => "\n"
       case 't' => "\t"
       case 'r' => "\r"
       case '\\' => "\\"
       case c => ['\\', c]) + Unescaped(s[2..])
    else [s[0]] + Unescaped(s[1..])
  }
}
