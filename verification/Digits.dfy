/** Digit strings: positional notation for whole numbers, and decimal digits of fractions. */
module Digits {
  import NumberTheory
  import opened Decimal

  const DIGITS: string := "0123456789ABCDEF"

  function DigitChar(d: int): char
    requires 0 <= d < 16
  {
    DIGITS[d]
  }

  /** The value of a digit or letter, -1 for any other character. */
  function DigitVal(c: char): int {
    if '0' <= c <= '9' then c as int - '0' as int
    else if 'A' <= c <= 'Z' then c as int - 'A' as int + 10
    else if 'a' <= c <= 'z' then c as int - 'a' as int + 10
    else -1
  }

  lemma DigitRoundTrip(d: int)
    requires 0 <= d < 16
    ensures DigitVal(DigitChar(d)) == d
    ensures d < 10 ==> '0' <= DigitChar(d) <= '9'
    ensures d != 0 ==> DigitChar(d) != '0'
    ensures DigitChar(d) != '.' && DigitChar(d) != '-' && DigitChar(d) != '+' && DigitChar(d) != '_' && !('a' <= DigitChar(d) <= 'z')
  {
  }

  /** The string consists of digits of base b. */
  predicate AreDigits(s: string, b: int) { forall i | 0 <= i < |s| :: 0 <= DigitVal(s[i]) < b }

  /** The number a digit string stands for. */
  function Value(s: string, b: int): int {
    if s == "" then 0 else Value(s[..|s| - 1], b) * b + DigitVal(s[|s| - 1])
  }

  lemma {:induction false} ValueConcat(p: string, q: string, b: int)
    ensures Value(p + q, b) == Value(p, b) * NumberTheory.Pow(b, |q|) + Value(q, b)
    decreases |q|
  {
    if q == "" {
      assert p + q == p;
    } else {
      var n := |q| - 1;
      ValueConcat(p, q[..n], b);
      assert (p + q)[..|p| + n] == p + q[..n];
      DistributeInt(Value(p, b), NumberTheory.Pow(b, n), Value(q[..n], b), b, DigitVal(q[n]));
    }
  }

  lemma DistributeInt(v: int, pw: int, w: int, b: int, d: int)
    ensures (v * pw + w) * b + d == v * (b * pw) + (w * b + d)
  {
    assert (v * pw) * b == v * (b * pw);
  }

  lemma {:induction false} ValueIsNat(s: string, b: int)
    requires b >= 2 && AreDigits(s, b)
    ensures Value(s, b) >= 0
  {
    hide DigitVal;
    if s != "" {
      var n := |s| - 1;
      assert AreDigits(s[..n], b) by {
        forall i | 0 <= i < n
          ensures 0 <= DigitVal(s[..n][i]) < b
        {
          assert s[..n][i] == s[i];
        }
      }
      ValueIsNat(s[..n], b);
      ProductIsNat(Value(s[..n], b), b);
    }
  }

  lemma ProductIsNat(x: int, y: int)
    requires x >= 0 && y >= 0
    ensures x * y >= 0
  {
  }

  // ---- Whole numbers ----

  /** The digits of n, none for zero. */
  function ToDigits(n: nat, b: nat): string
    requires 2 <= b <= 16
    decreases n
  {
    if n == 0 then "" else ToDigits(n / b, b) + [DigitChar(n % b)]
  }

  lemma {:induction false} ToDigitsValue(n: nat, b: nat)
    requires 2 <= b <= 16
    ensures Value(ToDigits(n, b), b) == n && AreDigits(ToDigits(n, b), b)
    decreases n
  {
    hide DigitVal, DigitChar, NumberTheory.Pow;
    if n > 0 {
      var q, d := n / b, n % b;
      Quotient(n, b);
      ToDigitsValue(q, b);
      DigitRoundTrip(d);
      ValueOfPush(ToDigits(q, b), d, b);
    }
  }

  lemma Quotient(n: nat, b: nat)
    requires b >= 2 && n > 0
    ensures 0 <= n / b < n && 0 <= n % b < b && n / b * b + n % b == n
  {
  }

  lemma ValueOfPush(s: string, d: int, b: int)
    requires 0 <= d < b <= 16 && AreDigits(s, b)
    ensures Value(s + [DigitChar(d)], b) == Value(s, b) * b + d && AreDigits(s + [DigitChar(d)], b)
  {
    DigitRoundTrip(d);
    hide DigitVal, DigitChar;
    assert (s + [DigitChar(d)])[..|s|] == s;
  }

  /** No leading zero, and no other character than digits and capital letters. */
  lemma {:induction false} ToDigitsClean(n: nat, b: nat)
    requires 2 <= b <= 16 && n > 0
    ensures ToDigits(n, b) != "" && ToDigits(n, b)[0] != '0'
    ensures Clean(ToDigits(n, b))
    decreases n
  {
    hide DigitVal, DigitChar;
    Quotient(n, b);
    DigitRoundTrip(n % b);
    if n / b > 0 {
      ToDigitsClean(n / b, b);
    } else {
      assert n % b == n by {
        SmallMod(n, b);
      }
    }
  }

  lemma SmallMod(n: nat, b: nat)
    requires b > 0 && n / b == 0
    ensures n % b == n
  {
    assert n == (n / b) * b + n % b;
  }

  predicate Clean(s: string) {
    forall i | 0 <= i < |s| :: s[i] != '.' && s[i] != '-' && s[i] != '+' && s[i] != '_' && !('a' <= s[i] <= 'z')
  }

  function Numeral(n: nat, b: nat): string
    requires 2 <= b <= 16
  {
    if n == 0 then "0" else ToDigits(n, b)
  }

  lemma NumeralValue(n: nat, b: nat)
    requires 2 <= b <= 16
    ensures var s := Numeral(n, b);
      s != "" && Value(s, b) == n && AreDigits(s, b) && Clean(s) && (n > 0 ==> s[0] != '0')
  {
    if n > 0 {
      ToDigitsValue(n, b);
      ToDigitsClean(n, b);
    } else {
      assert "0"[..0] == "";
      assert Value("0", b) == Value("", b) * b + DigitVal('0');
    }
  }

  // ---- Fractions ----

  predicate Proper(x: real) { 0.0 <= x < 1.0 }

  function NextDigit(x: real, b: int): (d: int)
    requires Proper(x) && b >= 2
    ensures 0 <= d < b
  {
    TimesBelow(x, b as real);
    Times(x, b as real).Floor
  }

  lemma TimesBelow(x: real, b: real)
    requires Proper(x) && b > 0.0
    ensures 0.0 <= Times(x, b) < b
  {
  }

  function NextFraction(x: real, b: int): (y: real)
    requires Proper(x) && b >= 2
    ensures Proper(y)
  {
    Times(x, b as real) - NextDigit(x, b) as real
  }

  /** The first k digits after the point, in base b. */
  function FracDigits(x: real, b: nat, k: nat): (s: string)
    requires Proper(x) && 2 <= b <= 16
    ensures |s| == k
    decreases k
  {
    if k == 0 then "" else [DigitChar(NextDigit(x, b))] + FracDigits(NextFraction(x, b), b, k - 1)
  }

  lemma {:induction false} FracDigitsClean(x: real, b: nat, k: nat)
    requires Proper(x) && 2 <= b <= 16
    ensures AreDigits(FracDigits(x, b, k), b) && Clean(FracDigits(x, b, k))
    decreases k
  {
    hide DigitVal, DigitChar;
    if k > 0 {
      DigitRoundTrip(NextDigit(x, b));
      FracDigitsClean(NextFraction(x, b), b, k - 1);
    }
  }

  /** A number shifted by k places of base b. */
  function Shifted(x: real, b: int, k: nat): real { Times(x, NumberTheory.Pow(b, k) as real) }

  lemma {:induction false} IntPowTen(n: nat)
    ensures NumberTheory.Pow(10, n) == Ten(n)
  {
    if n > 0 {
      IntPowTen(n - 1);
    }
  }

  lemma ShiftedIsScaled(x: real, k: nat)
    ensures Shifted(x, 10, k) == Scaled(x, k)
  {
    IntPowTen(k);
    TenIsP10(k);
  }

  lemma IntPowStep(b: int, k: nat)
    ensures NumberTheory.Pow(b, k + 1) as real == Times(b as real, NumberTheory.Pow(b, k) as real)
  {
    MulReal(b, NumberTheory.Pow(b, k));
  }

  lemma ShiftedInt(d: int, b: int, k: nat)
    ensures Shifted(d as real, b, k) == (d * NumberTheory.Pow(b, k)) as real
  {
    MulReal(d, NumberTheory.Pow(b, k));
  }

  /** The next digit and the rest of the fraction make up the shifted fraction. */
  lemma ShiftedSplits(x: real, b: int, k: nat)
    requires Proper(x) && b >= 2
    ensures Shifted(x, b, k + 1) == Shifted(NextFraction(x, b), b, k) + (NextDigit(x, b) * NumberTheory.Pow(b, k)) as real
  {
    hide Times, NumberTheory.Pow;
    var d, y := NextDigit(x, b), NextFraction(x, b);
    IntPowStep(b, k);
    TimesAssoc(x, b as real, NumberTheory.Pow(b, k) as real);
    Distribute(y, d as real, NumberTheory.Pow(b, k) as real);
    ShiftedInt(d, b, k);
  }

  lemma FloorShift(x: real, m: int)
    ensures (x + m as real).Floor == x.Floor + m
  {
  }

  /** The first k digits are those of the fraction cut off after k places. */
  lemma {:induction false} FracDigitsValue(x: real, b: nat, k: nat)
    requires Proper(x) && 2 <= b <= 16
    ensures Value(FracDigits(x, b, k), b) == Shifted(x, b, k).Floor
    decreases k
  {
    if k == 0 {
      assert NumberTheory.Pow(b, 0) == 1;
      assert Shifted(x, b, 0) == x;
    } else {
      var d, y := NextDigit(x, b), NextFraction(x, b);
      hide Shifted, NextDigit, NextFraction, DigitVal, DigitChar, Proper, NumberTheory.Pow;
      ShiftedSplits(x, b, k - 1);
      FracDigitsValue(y, b, k - 1);
      ValueConcat([DigitChar(d)], FracDigits(y, b, k - 1), b);
      OneDigit(d, b);
      FloorShift(Shifted(y, b, k - 1), d * NumberTheory.Pow(b, k - 1));
    }
  }

  lemma OneDigit(d: int, b: int)
    requires 0 <= d < b <= 16
    ensures Value([DigitChar(d)], b) == d
  {
    DigitRoundTrip(d);
    assert [DigitChar(d)][..0] == "";
  }

  // ---- Fixed-point text ----

  function Zeros(n: nat): (s: string)
    ensures |s| == n
  {
    if n == 0 then "" else "0" + Zeros(n - 1)
  }

  /** Where the first point is; the length when there is none. */
  function Point(s: string): (i: nat)
    ensures i <= |s|
    ensures i < |s| ==> s[i] == '.'
    ensures forall j | 0 <= j < i :: s[j] != '.'
  {
    if s == "" || s[0] == '.' then 0 else 1 + Point(s[1..])
  }

  /** The digits of a with the point left out: whole part, then k digits of the fraction. */
  function AllDigits(a: real, b: nat, k: nat): string
    requires a >= 0.0 && 2 <= b <= 16
  {
    ToDigits(a.Floor, b) + FracDigits(a - a.Floor as real, b, k)
  }

  /** Those digits stand for the number cut off after k places. */
  lemma AllDigitsValue(a: real, b: nat, k: nat)
    requires a >= 0.0 && 2 <= b <= 16
    ensures Value(AllDigits(a, b, k), b) == Shifted(a, b, k).Floor
  {
    hide Shifted, Value, ToDigits, FracDigits, AreDigits, NumberTheory.Pow;
    var n, x := a.Floor, a - a.Floor as real;
    ToDigitsValue(n, b);
    FracDigitsValue(x, b, k);
    ValueConcat(ToDigits(n, b), FracDigits(x, b, k), b);
    ShiftedAdd(n as real, x, b, k);
    ShiftedInt(n, b, k);
    FloorShift(Shifted(x, b, k), n * NumberTheory.Pow(b, k));
  }

  lemma ShiftedAdd(x: real, y: real, b: int, k: nat)
    ensures Shifted(x + y, b, k) == Shifted(x, b, k) + Shifted(y, b, k)
  {
    hide Times, NumberTheory.Pow;
    Distribute(x, y, NumberTheory.Pow(b, k) as real);
  }

  // ---- The digits themselves ----

  /** The digits are written 0 to 9 and A to F; letters are read in both cases and go on behind F. */
  lemma DigitsAreUsual(d: int)
    requires 0 <= d < 36
    ensures var upper, lower := (if d < 10 then 48 + d else 55 + d) as char, (if d < 10 then 48 + d else 87 + d) as char;
      DigitVal(upper) == d && DigitVal(lower) == d && (d < 16 ==> DigitChar(d) == upper)
  {
    assert DIGITS == "0123456789ABCDEF";
  }

  /** A number has k digits exactly when it lies between two neighbouring powers of the base. */
  lemma {:induction false} NumeralLength(n: nat, b: nat)
    requires 2 <= b <= 16 && n > 0
    ensures var k := |Numeral(n, b)|; k >= 1 && NumberTheory.Pow(b, k - 1) <= n < NumberTheory.Pow(b, k)
    decreases n
  {
    var m := n / b;
    Quotient(n, b);
    if m == 0 {
      assert ToDigits(0, b) == "";
      assert NumberTheory.Pow(b, 0) == 1;
      assert NumberTheory.Pow(b, 1) == b * NumberTheory.Pow(b, 0);
    } else {
      NumeralLength(m, b);
      var k := |Numeral(m, b)|;
      assert |Numeral(n, b)| == k + 1;
      hide NumberTheory.Pow, ToDigits;
      PowerStep(b, k - 1);
      PowerStep(b, k);
      TimesBase(NumberTheory.Pow(b, k - 1), m, NumberTheory.Pow(b, k), b, n % b);
    }
  }

  lemma PowerStep(b: nat, k: nat)
    ensures NumberTheory.Pow(b, k + 1) == b * NumberTheory.Pow(b, k)
  {
  }

  lemma TimesBase(lo: int, m: int, hi: int, b: int, r: int)
    requires lo <= m < hi && 0 <= r < b
    ensures b * lo <= m * b + r < b * hi
  {
    assert b * lo <= b * m;
    assert b * (m + 1) <= b * hi;
  }
}
