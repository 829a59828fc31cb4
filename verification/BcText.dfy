/** How bc prints a number in a base (`formatRat`) and reads one (`parseNumberInBase`). */
module BcText {
  import NumberTheory
  import opened Decimal
  import opened Digits
  import opened Sequences

  // ---- Reading ----

  function Upper(c: char): char {
    if 'a' <= c <= 'z' then (c as int - 'a' as int + 'A' as int) as char else c
  }

  function Uppered(s: string): string { seq(|s|, i requires 0 <= i < |s| => Upper(s[i])) }

  /** The digits a string names: other characters are skipped, digits too large for the base may be capped. */
  function DigitsOf(s: string, base: int, capped: bool): seq<int> {
    if s == "" then []
    else
      var rest, d := DigitsOf(s[..|s| - 1], base, capped), DigitVal(s[|s| - 1]);
      if d < 0 then rest else rest + [if capped && d >= base then base - 1 else d]
  }

  function Positional(ds: seq<int>, base: int): int {
    if ds == [] then 0 else Positional(ds[..|ds| - 1], base) * base + ds[|ds| - 1]
  }

  function Fraction(ds: seq<int>, base: int): real
    requires base >= 2
  {
    NumberTheory.PowPositive(base, |ds|);
    Positional(ds, base) as real / NumberTheory.Pow(base, |ds|) as real
  }

  function WithoutLeadingZeros(s: string): string {
    if s != "" && s[0] == '0' then WithoutLeadingZeros(s[1..]) else s
  }

  predicate SingleDigit(s: string) {
    var t := WithoutLeadingZeros(s);
    |t| == 1 || (t == "" && |s| == 1)
  }

  function Unsigned(s: string): string { if s != "" && (s[0] == '-' || s[0] == '+') then s[1..] else s }

  function WholePart(s: string): string { s[..Point(s)] }

  /** The text between the first point and the second, if any. */
  function FractionPart(s: string): string {
    if Point(s) == |s| then "" else var rest := s[Point(s) + 1..]; rest[..Point(rest)]
  }

  function Magnitude(s: string, ibase: int): real
    requires ibase >= 2
  {
    var single := Point(s) == |s| && SingleDigit(WholePart(s));
    Positional(DigitsOf(WholePart(s), ibase, !single), ibase) as real + Fraction(DigitsOf(FractionPart(s), ibase, true), ibase)
  }

  function Reading(text: string, ibase: int): real
    requires ibase >= 2
  {
    var s := Uppered(text);
    var m := Magnitude(Unsigned(s), ibase);
    if s != "" && s[0] == '-' then -m else m
  }

  lemma DigitsOfPrefix(s: string, i: nat, base: int, capped: bool)
    requires i < |s|
    ensures var d := DigitVal(s[i]);
      DigitsOf(s[..i + 1], base, capped) ==
      DigitsOf(s[..i], base, capped) + if d < 0 then [] else [if capped && d >= base then base - 1 else d]
  {
    hide DigitVal;
    assert s[..i + 1][..i] == s[..i];
    assert s[..i + 1][i] == s[i];
  }

  lemma PositionalPush(ds: seq<int>, d: int, base: int)
    ensures Positional(ds + [d], base) == Positional(ds, base) * base + d
  {
    assert (ds + [d])[..|ds|] == ds;
  }

  method WholeValue(s: string, ibase: int, single: bool) returns (v: int)
    ensures v == Positional(DigitsOf(s, ibase, !single), ibase)
  {
    hide DigitVal, Positional;
    v := 0;
    assert Positional(DigitsOf(s[..0], ibase, !single), ibase) == 0 by {
      NoDigits(ibase, !single);
    }
    for i := 0 to |s|
      invariant v == Positional(DigitsOf(s[..i], ibase, !single), ibase)
    {
      DigitsOfPrefix(s, i, ibase, !single);
      ghost var ds := DigitsOf(s[..i], ibase, !single);
      assert ds + [] == ds;
      var d := DigitVal(s[i]);
      if d < 0 {
        continue;
      }
      if !single && d >= ibase {
        d := ibase - 1;
      }
      PositionalPush(ds, d, ibase);
      v := v * ibase + d;
    }
    assert s[..|s|] == s;
  }

  lemma NoDigits(base: int, capped: bool)
    ensures DigitsOf("", base, capped) == [] && Positional([], base) == 0
  {
  }

  /** One more digit behind the point. */
  lemma FractionPush(ds: seq<int>, d: int, base: int)
    requires base >= 2
    ensures NumberTheory.Pow(base, |ds| + 1) == NumberTheory.Pow(base, |ds|) * base >= 1
    ensures Fraction(ds + [d], base) == Fraction(ds, base) + d as real / NumberTheory.Pow(base, |ds| + 1) as real
  {
    PositionalPush(ds, d, base);
    PowStep(base, |ds|);
    hide Positional, NumberTheory.Pow;
    NextPlace(Positional(ds, base), NumberTheory.Pow(base, |ds|), base, d);
  }

  lemma PowStep(base: int, n: nat)
    requires base >= 2
    ensures NumberTheory.Pow(base, n) >= 1 && NumberTheory.Pow(base, n + 1) == NumberTheory.Pow(base, n) * base >= 1
  {
    NumberTheory.PowPositive(base, n);
    NumberTheory.PowPositive(base, n + 1);
  }

  lemma NextPlace(v: int, p: int, base: int, d: int)
    requires p >= 1 && base >= 2 && p * base >= 1
    ensures (v * base + d) as real / (p * base) as real == v as real / p as real + d as real / (p * base) as real
  {
    MulReal(p, base);
    MulReal(v, base);
    CommonDenominator(v as real, p as real, base as real, d as real);
  }

  lemma CommonDenominator(v: real, p: real, b: real, d: real)
    requires p >= 1.0 && b >= 1.0
    ensures p * b != 0.0
    ensures (v * b + d) / (p * b) == v / p + d / (p * b)
  {
    assert p * b >= 1.0;
    var q := v / p;
    assert q * p == v;
    assert v * b == q * (p * b);
    assert (q * (p * b)) / (p * b) == q by {
      Cancel(q, p * b);
    }
  }

  lemma Cancel(q: real, c: real)
    requires c != 0.0
    ensures (q * c) / c == q
  {
  }

  method FractionValue(s: string, ibase: int) returns (v: real)
    requires ibase >= 2
    ensures v == Fraction(DigitsOf(s, ibase, true), ibase)
  {
    hide DigitVal, Positional, Fraction, NumberTheory.Pow;
    v := 0.0;
    var power := 1;
    NoFraction(ibase);
    for i := 0 to |s|
      invariant power == NumberTheory.Pow(ibase, |DigitsOf(s[..i], ibase, true)|)
      invariant v == Fraction(DigitsOf(s[..i], ibase, true), ibase)
    {
      DigitsOfPrefix(s, i, ibase, true);
      ghost var ds := DigitsOf(s[..i], ibase, true);
      assert ds + [] == ds;
      var d := DigitVal(s[i]);
      if d < 0 {
        continue;
      }
      if d >= ibase {
        d := ibase - 1;
      }
      FractionPush(ds, d, ibase);
      power := power * ibase;
      v := v + d as real / power as real;
    }
    assert s[..|s|] == s;
  }

  lemma NoFraction(base: int)
    requires base >= 2
    ensures DigitsOf("", base, true) == [] && NumberTheory.Pow(base, 0) == 1 && Fraction([], base) == 0.0
  {
  }

  method ParseNumberInBase(text: string, ibase: int) returns (r: real)
    requires ibase >= 2
    ensures r == Reading(text, ibase)
  {
    hide DigitsOf, Positional, Fraction, WithoutLeadingZeros;
    var s := Uppered(text);
    var neg := false;
    if s != "" && s[0] == '-' {
      neg := true;
      s := s[1..];
    } else if s != "" && s[0] == '+' {
      s := s[1..];
    }
    var intStr, fracStr := WholePart(s), FractionPart(s);
    var single := Point(s) == |s|;
    if single {
      single := SingleDigit(intStr);
    }
    var whole := WholeValue(intStr, ibase, single);
    var frac := FractionValue(fracStr, ibase);
    r := whole as real + frac;
    if neg {
      r := -r;
    }
  }

  // ---- Printing ----

  /** Digits come out lowest first and are then reversed. */
  method IntDigits(n: nat, obase: nat) returns (s: string)
    requires 2 <= obase <= 16
    ensures s == Numeral(n, obase)
  {
    hide DigitChar;
    var temp, ds := n, "";
    while temp > 0
      invariant 0 <= temp <= n
      invariant ToDigits(n, obase) == ToDigits(temp, obase) + Reversed(ds)
    {
      Quotient(temp, obase);
      var c := DigitChar(temp % obase);
      ReversedPush(ds, c);
      ghost var higher := ToDigits(temp / obase, obase);
      assert higher + [c] + Reversed(ds) == higher + ([c] + Reversed(ds));
      ds := ds + [c];
      temp := temp / obase;
    }
    assert "" + Reversed(ds) == Reversed(ds);
    if |ds| == 0 {
      ReversedAt(ds);
      ReversedAt("0");
      assert Reversed("0") == "0";
      ds := "0";
    } else {
      ReversedAt(ds);
      assert ToDigits(n, obase) != "";
    }
    s := Reverse(ds);
  }

  method FracLoop(x: real, obase: nat, k: nat) returns (s: string)
    requires Proper(x) && 2 <= obase <= 16
    ensures s == FracDigits(x, obase, k)
  {
    hide NextDigit, NextFraction, DigitChar;
    s := "";
    var rem := x;
    for i := 0 to k
      invariant Proper(rem)
      invariant s + FracDigits(rem, obase, k - i) == FracDigits(x, obase, k)
    {
      ghost var rest := FracDigits(NextFraction(rem, obase), obase, k - i - 1);
      assert s + ([DigitChar(NextDigit(rem, obase))] + rest) == s + [DigitChar(NextDigit(rem, obase))] + rest;
      s := s + [DigitChar(NextDigit(rem, obase))];
      rem := NextFraction(rem, obase);
    }
    assert s + "" == s;
  }

  function Sign(negative: bool): string { if negative then "-" else "" }

  /** The number of places printed: in a base other than ten, `converted`, which the source computes from the
      scale with logarithms; otherwise the scale itself. */
  function PrintScale(obase: int, scale: int, converted: int): int {
    if obase != 10 && scale > 0 then converted else scale
  }

  function Format(r: real, obase: nat, scale: int, converted: int, forceNeg: bool): string
    requires 2 <= obase <= 16
  {
    if r == 0.0 then
      if scale > 0 && forceNeg then "-." + Zeros(scale) else "0"
    else
      var a := Abs(r);
      var printScale := PrintScale(obase, scale, converted);
      Sign(r < 0.0 || forceNeg) +
      if printScale <= 0 then Numeral(a.Floor, obase)
      else ToDigits(a.Floor, obase) + "." + FracDigits(a - a.Floor as real, obase, printScale)
  }

  method FormatRat(r: real, obase: nat, scale: int, converted: int, forceNeg: bool) returns (text: string)
    requires 2 <= obase <= 16
    ensures text == Format(r, obase, scale, converted, forceNeg)
  {
    hide FracDigits;
    if r == 0.0 {
      if scale <= 0 {
        return "0";
      }
      if forceNeg {
        return "-." + Zeros(scale);
      }
      return "0";
    }
    var neg := r < 0.0 || forceNeg;
    var val := Abs(r);
    var whole := val.Floor;
    var printScale := scale;
    if obase != 10 && scale > 0 {
      printScale := converted;
    }
    var intStr := IntDigits(whole, obase);
    if whole == 0 && printScale > 0 {
      intStr := "";
    }
    if printScale <= 0 {
      return Sign(neg) + intStr;
    }
    var fracStr := FracLoop(val - whole as real, obase, printScale);
    var res := intStr + "." + fracStr;
    return Sign(neg) + res;
  }

  // ---- Reading back what was printed ----

  /** Digits of the base count as themselves. */
  lemma {:induction false} DigitsOfDigits(s: string, base: int, capped: bool)
    requires AreDigits(s, base)
    ensures |DigitsOf(s, base, capped)| == |s|
    ensures Positional(DigitsOf(s, base, capped), base) == Value(s, base)
  {
    hide DigitVal;
    if s != "" {
      var n := |s| - 1;
      DigitsOfPrefix(s, n, base, capped);
      assert s[..n + 1] == s;
      DigitsOfDigits(s[..n], base, capped);
      PositionalPush(DigitsOf(s[..n], base, capped), DigitVal(s[n]), base);
    }
  }

  lemma CleanText(s: string)
    requires forall i | 0 <= i < |s| :: !('a' <= s[i] <= 'z')
    ensures Uppered(s) == s
  {
  }

  /** Text without sign and small letters. */
  predicate Plain(s: string) {
    s != "" && s[0] != '-' && s[0] != '+' && forall i | 0 <= i < |s| :: !('a' <= s[i] <= 'z')
  }

  lemma SignedReads(negative: bool, s: string, ibase: int)
    requires Plain(s) && ibase >= 2
    ensures Reading(Sign(negative) + s, ibase) == if negative then -Magnitude(s, ibase) else Magnitude(s, ibase)
  {
    hide Magnitude;
    var text := Sign(negative) + s;
    CleanText(text);
    assert text[0] == if negative then '-' else s[0];
    if negative {
      assert text[1..] == s;
    } else {
      assert text == s;
    }
  }

  lemma NumeralMagnitude(n: nat, b: nat)
    requires 2 <= b <= 16
    ensures Magnitude(Numeral(n, b), b) == n as real && Plain(Numeral(n, b))
  {
    hide Numeral, SingleDigit, DigitsOf, Positional, Value, DigitVal;
    var s := Numeral(n, b);
    NumeralValue(n, b);
    assert Point(s) == |s|;
    assert s[..|s|] == s;
    DigitsOfDigits(s, b, !SingleDigit(s));
    assert DigitsOf("", b, true) == [] && Fraction([], b) == 0.0 by {
      NoFraction(b);
    }
  }

  lemma FixedParts(p: string, q: string)
    requires Clean(p) && Clean(q)
    ensures var s := p + "." + q; Point(s) == |p| && WholePart(s) == p && FractionPart(s) == q
  {
    var s := p + "." + q;
    assert s[|p|] == '.';
    assert forall j | 0 <= j < |p| :: s[j] == p[j];
    assert Point(s) == |p|;
    assert s[|p| + 1..] == q;
    assert Point(q) == |q|;
    assert q[..|q|] == q;
  }

  lemma FixedMagnitude(p: string, q: string, b: int)
    requires b >= 2 && Clean(p) && Clean(q) && AreDigits(p, b) && AreDigits(q, b)
    ensures NumberTheory.Pow(b, |q|) >= 1
    ensures Magnitude(p + "." + q, b) == Value(p + q, b) as real / NumberTheory.Pow(b, |q|) as real
  {
    hide DigitsOf, Positional, Value, DigitVal, NumberTheory.Pow, Clean, AreDigits, WholePart, FractionPart;
    FixedParts(p, q);
    DigitsOfDigits(p, b, true);
    DigitsOfDigits(q, b, true);
    ValueConcat(p, q, b);
    NumberTheory.PowPositive(b, |q|);
    SplitQuotient(Value(p, b), NumberTheory.Pow(b, |q|), Value(q, b));
  }

  lemma SplitQuotient(v: int, c: int, w: int)
    requires c >= 1
    ensures (v * c + w) as real / c as real == v as real + w as real / c as real
  {
    MulReal(v, c);
    Cancel(v as real, c as real);
  }

  /** The number cut off, toward zero, after k places of base b. */
  function CutOff(r: real, b: int, k: nat): real
    requires b >= 2
  {
    NumberTheory.PowPositive(b, k);
    Trunc(Shifted(r, b, k)) as real / NumberTheory.Pow(b, k) as real
  }

  /** The text of a magnitude. */
  function Body(a: real, obase: nat, k: int): string
    requires a >= 0.0 && 2 <= obase <= 16
  {
    if k <= 0 then Numeral(a.Floor, obase)
    else ToDigits(a.Floor, obase) + "." + FracDigits(a - a.Floor as real, obase, k)
  }

  function Places(k: int): nat { if k < 0 then 0 else k }

  lemma ToDigitsPlain(n: nat, b: nat)
    requires 2 <= b <= 16
    ensures AreDigits(ToDigits(n, b), b) && Clean(ToDigits(n, b))
  {
    ToDigitsValue(n, b);
    if n > 0 {
      ToDigitsClean(n, b);
    }
  }

  lemma BodyMagnitude(a: real, b: nat, k: int)
    requires a >= 0.0 && 2 <= b <= 16
    ensures Plain(Body(a, b, k))
    ensures Magnitude(Body(a, b, k), b) == CutOff(a, b, Places(k))
  {
    hide Magnitude, Numeral, NumberTheory.Pow, Value, ToDigits, FracDigits, DigitVal, Shifted;
    var n, x := a.Floor, a - a.Floor as real;
    ShiftedIsNat(a, b, Places(k));
    if k <= 0 {
      NumeralMagnitude(n, b);
      ShiftedByNothing(a, b);
    } else {
      ToDigitsPlain(n, b);
      FracDigitsClean(x, b, k);
      FixedMagnitude(ToDigits(n, b), FracDigits(x, b, k), b);
      AllDigitsValue(a, b, k);
    }
  }

  lemma ShiftedByNothing(a: real, b: int)
    ensures Shifted(a, b, 0) == a && NumberTheory.Pow(b, 0) == 1
  {
    assert NumberTheory.Pow(b, 0) == 1;
  }

  lemma ShiftedIsNat(a: real, b: int, k: nat)
    requires a >= 0.0 && b >= 2
    ensures Shifted(a, b, k) >= 0.0
  {
    NumberTheory.PowPositive(b, k);
    TimesSign(a, NumberTheory.Pow(b, k) as real);
  }

  /** What is printed reads back as the number cut off at the printed places, in the base it was printed in. */
  lemma PrintedReadsBack(r: real, b: nat, scale: int, converted: int, forceNeg: bool)
    requires 2 <= b <= 16 && r != 0.0
    ensures var m := CutOff(Abs(r), b, Places(PrintScale(b, scale, converted)));
      Reading(Format(r, b, scale, converted, forceNeg), b) == if r < 0.0 || forceNeg then -m else m
  {
    hide Reading, Sign, CutOff, Magnitude, Plain, Numeral, ToDigits, FracDigits;
    var a := Abs(r);
    BodyMagnitude(a, b, PrintScale(b, scale, converted));
    SignedReads(r < 0.0 || forceNeg, Body(a, b, PrintScale(b, scale, converted)), b);
  }

  lemma {:induction false} ZerosAreZero(n: nat, b: nat)
    requires b >= 2
    ensures AreDigits(Zeros(n), b) && Clean(Zeros(n)) && Value(Zeros(n), b) == 0
  {
    if n > 0 {
      ZerosAreZero(n - 1, b);
      ValueConcat("0", Zeros(n - 1), b);
      assert "0"[..0] == "";
      assert Value("0", b) == 0;
    }
  }

  lemma ZeroReadsBack(b: nat, scale: int, converted: int, forceNeg: bool)
    requires 2 <= b <= 16
    ensures Reading(Format(0.0, b, scale, converted, forceNeg), b) == 0.0
  {
    hide Magnitude, Reading, Value, DigitVal;
    if scale > 0 && forceNeg {
      ZerosAreZero(scale, b);
      FixedMagnitude("", Zeros(scale), b);
      assert "" + Zeros(scale) == Zeros(scale);
      assert "" + "." + Zeros(scale) == "." + Zeros(scale);
      SignedReads(true, "." + Zeros(scale), b);
      assert Sign(true) + ("." + Zeros(scale)) == "-." + Zeros(scale);
    } else {
      NumeralMagnitude(0, b);
      SignedReads(false, "0", b);
      assert Sign(false) + "0" == "0";
    }
  }

  /** Without the forced sign, the text stands for the number itself exactly when the printed places suffice. */
  lemma ExactWhenPlacesSuffice(r: real, b: nat, scale: int, converted: int)
    requires 2 <= b <= 16
    ensures Reading(Format(r, b, scale, converted, false), b) == r <==> Whole(Shifted(r, b, Places(PrintScale(b, scale, converted))))
  {
    hide Reading, Format, Shifted, CutOff, Whole;
    var k := Places(PrintScale(b, scale, converted));
    if r == 0.0 {
      ZeroReadsBack(b, scale, converted, false);
      ShiftedZero(b, k);
    } else {
      PrintedReadsBack(r, b, scale, converted, false);
      CutOffExact(Abs(r), b, k);
      ShiftedAbs(r, b, k);
    }
  }

  lemma ShiftedZero(b: int, k: nat)
    ensures Whole(Shifted(0.0, b, k))
  {
    assert Shifted(0.0, b, k) == 0.0;
  }

  lemma CutOffExact(a: real, b: int, k: nat)
    requires a >= 0.0 && b >= 2
    ensures CutOff(a, b, k) == a <==> Whole(Shifted(a, b, k))
  {
    hide NumberTheory.Pow, Times;
    NumberTheory.PowPositive(b, k);
    ShiftedIsNat(a, b, k);
    var p, t := NumberTheory.Pow(b, k) as real, Shifted(a, b, k).Floor as real;
    DivTimes(t, p);
    Invert(a, t, p);
  }

  lemma Invert(a: real, t: real, p: real)
    requires p >= 1.0
    ensures a == t / p <==> Times(a, p) == t
  {
    DivTimes(t, p);
    assert Times(a, p) == t ==> a == t / p by {
      assert (a * p) / p == a;
    }
  }

  lemma ShiftedAbs(r: real, b: int, k: nat)
    requires b >= 2
    ensures Whole(Shifted(Abs(r), b, k)) <==> Whole(Shifted(r, b, k))
  {
    hide NumberTheory.Pow;
    var p := NumberTheory.Pow(b, k) as real;
    assert Times(-r, p) == -Times(r, p);
    NegatedWhole(Times(r, p));
  }

  lemma NegatedWhole(x: real)
    ensures Whole(-x) <==> Whole(x)
  {
    if Whole(x) {
      WholeOf(-(x.Floor));
      assert -x == (-(x.Floor)) as real;
    }
    if Whole(-x) {
      WholeOf(-((-x).Floor));
      assert x == (-((-x).Floor)) as real;
    }
  }

  /** In base ten the text stands for the number exactly when the number has no more digits than the scale. */
  lemma DecimalTextIsExactWhen(r: real, scale: int, converted: int)
    ensures Reading(Format(r, 10, scale, converted, false), 10) == r <==> Multiple(r, scale)
  {
    hide Reading, Format, Shifted, Scaled;
    ExactWhenPlacesSuffice(r, 10, scale, converted);
    ShiftedIsScaled(r, Places(scale));
    NegativeScale(r, scale);
  }

  /** Whole numbers read back in every base, whatever the scale. */
  lemma WholeTextIsExact(n: int, b: nat, scale: int, converted: int)
    requires 2 <= b <= 16
    ensures Reading(Format(n as real, b, scale, converted, false), b) == n as real
  {
    hide Reading, Format;
    var k := Places(PrintScale(b, scale, converted));
    ExactWhenPlacesSuffice(n as real, b, scale, converted);
    ShiftedInt(n, b, k);
    WholeOf(n * NumberTheory.Pow(b, k));
  }

  // ---- Digits too large for the base ----

  lemma {:induction false} CappedDigits(s: string, base: int)
    requires base >= 2 && (forall i | 0 <= i < |s| :: DigitVal(s[i]) >= base)
    ensures |DigitsOf(s, base, true)| == |s|
    ensures Positional(DigitsOf(s, base, true), base) == NumberTheory.Pow(base, |s|) - 1
  {
    hide DigitVal;
    if s != "" {
      var n := |s| - 1;
      CappedDigits(s[..n], base);
      var ds := DigitsOf(s[..n], base, true);
      assert DigitVal(s[n]) >= base;
      assert DigitsOf(s, base, true) == ds + [base - 1];
      PowStep(base, n);
      hide Positional, NumberTheory.Pow, DigitsOf;
      PositionalPush(ds, base - 1, base);
      OneLess(NumberTheory.Pow(base, n), base);
    }
  }

  lemma OneLess(p: int, base: int)
    ensures (p - 1) * base + (base - 1) == p * base - 1
  {
  }

  /** In a numeral of several digits each one that is too large counts as the largest of the base: all together they
      make the greatest number of that many digits. */
  lemma LargeDigitsAreCapped(s: string, ibase: int)
    requires ibase >= 2 && |s| >= 2 && s[0] != '0'
    requires forall i | 0 <= i < |s| :: DigitVal(s[i]) >= ibase && !('a' <= s[i] <= 'z')
    ensures Reading(s, ibase) == (NumberTheory.Pow(ibase, |s|) - 1) as real
  {
    PlainReading(s, ibase);
    CappedDigits(s, ibase);
  }

  /** A single digit keeps its value in every base. */
  lemma SingleDigitKeepsValue(c: char, ibase: int)
    requires ibase >= 2 && DigitVal(c) >= 0 && !('a' <= c <= 'z')
    ensures Reading([c], ibase) == DigitVal(c) as real
  {
    PlainReading([c], ibase);
    assert WithoutLeadingZeros([c]) == if c == '0' then [] else [c];
    assert [c][..0] == "";
    assert DigitsOf([c], ibase, false) == DigitsOf("", ibase, false) + [DigitVal(c)];
    PositionalPush([], DigitVal(c), ibase);
  }

  lemma PlainReading(s: string, ibase: int)
    requires ibase >= 2 && s != "" && forall i | 0 <= i < |s| :: DigitVal(s[i]) >= 0 && !('a' <= s[i] <= 'z')
    ensures Reading(s, ibase) == Positional(DigitsOf(s, ibase, !SingleDigit(s)), ibase) as real
  {
    assert Uppered(s) == s;
    assert DigitVal(s[0]) >= 0;
    assert Unsigned(s) == s;
    assert Point(s) == |s|;
    assert WholePart(s) == s;
    assert FractionPart(s) == "";
    NoFraction(ibase);
  }
}
