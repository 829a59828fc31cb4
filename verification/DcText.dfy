/** How dc prints a number (`formatRat`) and reads one (`newNumStr`). */
module DcText {
  import opened Decimal
  import opened Digits

  // ---- Printing ----

  /** The digits the division loop produces: it stops early once nothing remains. */
  function Generated(x: real, n: nat): (s: string)
    requires Proper(x)
    ensures |s| <= n
    decreases n
  {
    if x == 0.0 || n == 0 then "" else [DigitChar(NextDigit(x, 10))] + Generated(NextFraction(x, 10), n - 1)
  }

  lemma {:induction false} ZerosPush(n: nat)
    ensures Zeros(n) + "0" == Zeros(n + 1)
  {
    if n > 0 {
      ZerosPush(n - 1);
    }
  }

  /** Cut to k characters, or filled up with zeros. */
  function Padded(s: string, k: nat): string {
    if |s| > k then s[..k] else s + Zeros(k - |s|)
  }

  lemma {:induction false} ZeroDigits(k: nat)
    ensures FracDigits(0.0, 10, k) == Zeros(k)
  {
    if k > 0 {
      ZeroDigits(k - 1);
      assert NextDigit(0.0, 10) == 0 && NextFraction(0.0, 10) == 0.0;
    }
  }

  /** Stopping early and filling up gives the same digits as going on. */
  lemma {:induction false} PaddedIsFrac(x: real, n: nat, k: nat)
    requires Proper(x) && k <= n
    ensures Padded(Generated(x, n), k) == FracDigits(x, 10, k)
    decreases k
  {
    hide NextDigit, NextFraction, DigitChar, Zeros;
    if x == 0.0 {
      ZeroDigits(k);
    } else if k > 0 {
      PaddedIsFrac(NextFraction(x, 10), n - 1, k - 1);
      PaddedPush(DigitChar(NextDigit(x, 10)), Generated(NextFraction(x, 10), n - 1), k);
    }
  }

  lemma PaddedPush(c: char, s: string, k: nat)
    requires k > 0
    ensures Padded([c] + s, k) == [c] + Padded(s, k - 1)
  {
    hide Zeros;
    if |s| >= k {
      assert ([c] + s)[..k] == [c] + s[..k - 1];
    }
  }

  function WithoutTrailingZeros(s: string): string {
    if s != "" && s[|s| - 1] == '0' then WithoutTrailingZeros(s[..|s| - 1]) else s
  }

  function Sign(r: real): string { if r < 0.0 then "-" else "" }

  function DigitLimit(scale: int): nat { if scale + 10 < 200 then 200 else scale + 10 }

  function Format(r: real, scale: int): string {
    var a := Abs(r);
    var n, x := a.Floor, a - a.Floor as real;
    if r == 0.0 then "0"
    else if Whole(r) && scale == 0 then Sign(r) + Numeral(n, 10)
    else if scale > 0 then Sign(r) + ToDigits(n, 10) + "." + FracDigits(x, 10, scale)
    else
      var fs := WithoutTrailingZeros(Generated(x, DigitLimit(scale)));
      if fs == "" then Sign(r) + Numeral(n, 10) else Sign(r) + ToDigits(n, 10) + "." + fs
  }

  method FractionDigits(x: real, n: nat) returns (fs: string)
    requires Proper(x)
    ensures fs == Generated(x, n)
  {
    hide NextDigit, NextFraction, DigitChar;
    fs := "";
    var rem := x;
    while rem != 0.0 && |fs| < n
      invariant Proper(rem) && |fs| <= n
      invariant fs + Generated(rem, n - |fs|) == Generated(x, n)
      decreases n - |fs|
    {
      ghost var rest := Generated(NextFraction(rem, 10), n - |fs| - 1);
      assert fs + ([DigitChar(NextDigit(rem, 10))] + rest) == fs + [DigitChar(NextDigit(rem, 10))] + rest;
      fs := fs + [DigitChar(NextDigit(rem, 10))];
      rem := NextFraction(rem, 10);
    }
    assert fs + "" == fs;
  }

  method FixWidth(s: string, k: nat) returns (fs: string)
    ensures fs == Padded(s, k)
  {
    fs := s;
    if |fs| > k {
      fs := fs[..k];
    }
    while |fs| < k
      invariant |fs| <= k
      invariant |s| > k ==> fs == s[..k]
      invariant |s| <= k ==> |fs| >= |s| && fs == s + Zeros(|fs| - |s|)
    {
      assert |s| <= k;
      ZerosPush(|fs| - |s|);
      fs := fs + "0";
    }
  }

  method FormatRat(r: real, scale: int) returns (text: string)
    ensures text == Format(r, scale)
  {
    hide DigitChar, NextDigit, NextFraction, Generated, FracDigits, WithoutTrailingZeros;
    if r == 0.0 {
      return "0";
    }
    var a := Abs(r);
    if Whole(r) && scale == 0 {
      return Sign(r) + Numeral(a.Floor, 10);
    }
    var whole := a.Floor;
    var x := a - whole as real;
    var fs := FractionDigits(x, DigitLimit(scale));
    if scale > 0 {
      fs := FixWidth(fs, scale);
      PaddedIsFrac(x, DigitLimit(scale), scale);
      return Sign(r) + (if whole == 0 then "" else Numeral(whole, 10)) + "." + fs;
    }
    fs := WithoutTrailingZeros(fs);
    if fs != "" {
      return Sign(r) + (if whole == 0 then "" else Numeral(whole, 10)) + "." + fs;
    }
    return Sign(r) + Numeral(whole, 10);
  }

  // ---- Reading ----

  datatype Parsed = Bad | Read(value: real, digits: nat)

  function Unblanked(s: string): string {
    if s != "" && (s[0] == ' ' || s[0] == '\t') then Unblanked(s[1..]) else s
  }

  function Unprefixed(s: string, c: char): string { if s != "" && s[0] == c then s[1..] else s }

  function WithoutLeadingZeros(s: string): string {
    if |s| > 1 && s[0] == '0' && s[1] != '.' then WithoutLeadingZeros(s[1..]) else s
  }

  function OrZero(s: string): string { if s == "" || s == "." then "0" else s }

  /** An empty part of a numeral counts as zero. */
  function PartOrZero(s: string): string { if s == "" then "0" else s }

  predicate Decimals(s: string) { forall i | 0 <= i < |s| :: '0' <= s[i] <= '9' }

  /** The magnitude an unsigned numeral stands for. */
  function Magnitude(s: string): Parsed {
    var i := Point(s);
    if i == |s| then
      if s != "" && Decimals(s) then Read(Value(s, 10) as real, 0) else Bad
    else
      var whole, frac := PartOrZero(s[..i]), PartOrZero(s[i + 1..]);
      if Decimals(whole + frac) then Read(Value(whole + frac, 10) as real / P10(|frac|), |frac|) else Bad
  }

  function Negated(p: Parsed, negative: bool): Parsed {
    if p.Read? && negative then Read(-p.value, p.digits) else p
  }

  function Parse(text: string): Parsed {
    var s := Unblanked(text);
    var t := Unprefixed(s, '_');
    var u := Unprefixed(t, '-');
    Negated(Magnitude(OrZero(WithoutLeadingZeros(u))), t != s || u != t)
  }

  method NewNumStr(text: string) returns (p: Parsed)
    ensures p == Parse(text)
  {
    hide Magnitude, Value;
    var s := Unblanked(text);
    var negative := false;
    if s != "" && s[0] == '_' {
      negative := true;
      s := s[1..];
    }
    if s != "" && s[0] == '-' {
      negative := true;
      s := s[1..];
    }
    ghost var u := s;
    while |s| > 1 && s[0] == '0' && s[1] != '.'
      invariant WithoutLeadingZeros(s) == WithoutLeadingZeros(u)
    {
      s := s[1..];
    }
    p := Negated(Magnitude(OrZero(s)), negative);
  }

  /** A second point is an error. */
  lemma SecondPointIsBad()
    ensures Parse("1..") == Bad
  {
    var s := "1..";
    assert Unblanked(s) == s && WithoutLeadingZeros(s) == s;
    assert s[1..][0] == '.';
    assert Point(s[1..]) == 0;
    assert Point(s) == 1;
    assert s[..1] == "1" && s[2..] == ".";
    assert ("1" + ".")[1] == '.';
  }

  // ---- What a number read says about itself ----

  /** The digit count read is true: the number has no more digits after the point. */
  lemma ReadIsMultiple(text: string)
    requires Parse(text).Read?
    ensures Multiple(Parse(text).value, Parse(text).digits)
  {
    var s := Unblanked(text);
    var t := Unprefixed(s, '_');
    var u := OrZero(WithoutLeadingZeros(Unprefixed(t, '-')));
    MagnitudeIsMultiple(u);
    var m := Magnitude(u);
    hide Parse, Magnitude, Multiple;
    assert Multiple(Negated(m, t != s || Unprefixed(t, '-') != t).value, m.digits) by {
      NegatedMultiple(m.value, m.digits);
    }
    assert Parse(text) == Negated(m, t != s || Unprefixed(t, '-') != t) by {
      ParseIs(text);
    }
  }

  lemma ParseIs(text: string)
    ensures
      var s := Unblanked(text);
      var t := Unprefixed(s, '_');
      var u := Unprefixed(t, '-');
      Parse(text) == Negated(Magnitude(OrZero(WithoutLeadingZeros(u))), t != s || u != t)
  {
  }

  lemma MagnitudeIsMultiple(s: string)
    requires Magnitude(s).Read?
    ensures Multiple(Magnitude(s).value, Magnitude(s).digits)
  {
    var i := Point(s);
    if i == |s| {
      WholeOf(Value(s, 10));
      WholeMultiple(Value(s, 10) as real, 0);
    } else {
      var whole, frac := PartOrZero(s[..i]), PartOrZero(s[i + 1..]);
      var v := Value(whole + frac, 10);
      WholeOf(v);
      Unscale(v as real, |frac|);
    }
  }

  lemma NegatedMultiple(v: real, n: nat)
    requires Multiple(v, n)
    ensures Multiple(-v, n)
  {
    hide Multiple;
    assert Multiple(0.0, n) by {
      WholeOf(0);
      WholeMultiple(0.0, n);
    }
    MultipleAdd(0.0, v, n);
    assert 0.0 - v == -v;
  }

  // ---- Reading back what was printed ----

  /** A numeral that reading takes as it stands. */
  predicate Settled(s: string) {
    s != "" && s[0] != ' ' && s[0] != '\t' && s[0] != '_' && s[0] != '-' && s != "." &&
    (|s| > 1 && s[0] == '0' ==> s[1] == '.')
  }

  lemma SignedReads(r: real, s: string)
    requires Settled(s)
    ensures Parse(Sign(r) + s) == Negated(Magnitude(s), r < 0.0)
  {
    hide Magnitude;
    var text := Sign(r) + s;
    assert text[0] == if r < 0.0 then '-' else s[0];
    if r < 0.0 {
      assert text[1..] == s;
    } else {
      assert text == s;
    }
  }

  lemma DecimalsAreDigits(s: string)
    requires AreDigits(s, 10)
    ensures Decimals(s)
  {
    forall i | 0 <= i < |s|
      ensures '0' <= s[i] <= '9'
    {
      assert 0 <= DigitVal(s[i]) < 10;
    }
  }

  lemma PointAfter(p: string, q: string)
    requires Decimals(p)
    ensures Point(p + "." + q) == |p|
  {
    var s := p + "." + q;
    assert s[|p|] == '.';
    assert forall j | 0 <= j < |p| :: s[j] == p[j];
    assert Point(s) == |p|;
  }

  lemma NoPoint(p: string)
    requires Decimals(p)
    ensures Point(p) == |p|
  {
  }

  lemma ZeroInFront(q: string)
    ensures Value("0" + q, 10) == Value(q, 10)
  {
    ValueConcat("0", q, 10);
    assert "0"[..0] == "";
    assert Value("0", 10) == 0;
  }

  /** A numeral with a point, by its two parts. */
  lemma MagnitudeAt(s: string, i: nat)
    requires i < |s| && Point(s) == i
    ensures var whole, frac := PartOrZero(s[..i]), PartOrZero(s[i + 1..]);
      Magnitude(s) == if Decimals(whole + frac) then Read(Value(whole + frac, 10) as real / P10(|frac|), |frac|) else Bad
  {
    hide Value, P10, Decimals, Point, PartOrZero;
  }

  lemma DecimalsConcat(p: string, q: string)
    requires Decimals(p) && Decimals(q)
    ensures Decimals(p + q) && Decimals("0" + q)
  {
  }

  lemma FixedMagnitude(p: string, q: string)
    requires Decimals(p) && Decimals(q) && q != ""
    ensures Magnitude(p + "." + q) == Read(Value(p + q, 10) as real / P10(|q|), |q|)
  {
    hide Value, P10, Decimals, Magnitude;
    var s := p + "." + q;
    PointAfter(p, q);
    assert s[..|p|] == p && s[|p| + 1..] == q;
    MagnitudeAt(s, |p|);
    DecimalsConcat(p, q);
    if p == "" {
      ZeroInFront(q);
      assert p + q == q;
    }
  }

  function FixedText(a: real, k: nat): string
    requires a >= 0.0
  {
    ToDigits(a.Floor, 10) + "." + FracDigits(a - a.Floor as real, 10, k)
  }

  lemma FixedTextMagnitude(a: real, k: nat)
    requires a >= 0.0 && k > 0
    ensures Magnitude(FixedText(a, k)) == Read(Scaled(a, k).Floor as real / P10(k), k)
  {
    hide Value, P10, Scaled, ToDigits, FracDigits, DigitVal, Magnitude, Decimals, AreDigits, Clean;
    var n, x := a.Floor, a - a.Floor as real;
    ToDigitsValue(n, 10);
    FracDigitsClean(x, 10, k);
    DecimalsAreDigits(ToDigits(n, 10));
    DecimalsAreDigits(FracDigits(x, 10, k));
    FixedMagnitude(ToDigits(n, 10), FracDigits(x, 10, k));
    AllDigitsValue(a, 10, k);
    ShiftedIsScaled(a, k);
  }

  /** Printing with k > 0 places cuts the number off after k places; reading the text gives exactly that, and k. */
  lemma FixedReadsBack(r: real, k: nat)
    requires r != 0.0 && k > 0
    ensures Parse(Format(r, k)) == Read(Truncate(r, k), k)
  {
    hide Parse, Format, Truncate, FixedText, Settled, Magnitude, Negated, Sign, Scaled, P10;
    FixedTextMagnitude(Abs(r), k);
    TextIsSettled(Abs(r), k);
    TextOf(r, k);
    SignedReads(r, FixedText(Abs(r), k));
    CutOff(r, k);
    NegatedRead(Scaled(Abs(r), k).Floor, k, r < 0.0);
  }

  lemma TextOf(r: real, k: nat)
    requires r != 0.0 && k > 0
    ensures Format(r, k) == Sign(r) + FixedText(Abs(r), k)
  {
    hide ToDigits, FracDigits;
    var a := Abs(r);
    assert Format(r, k) == Sign(r) + ToDigits(a.Floor, 10) + "." + FracDigits(a - a.Floor as real, 10, k);
  }

  lemma TextIsSettled(a: real, k: nat)
    requires a >= 0.0 && k > 0
    ensures Settled(FixedText(a, k))
  {
    hide FracDigits, DigitVal, ToDigits, Value;
    var n := a.Floor;
    var p := ToDigits(n, 10);
    ToDigitsValue(n, 10);
    if n > 0 {
      ToDigitsClean(n, 10);
      DecimalsAreDigits(p);
      assert FixedText(a, k)[0] == p[0];
    } else {
      NothingForZero();
      assert FixedText(a, k)[0] == '.';
    }
  }

  lemma NothingForZero()
    ensures ToDigits(0, 10) == ""
  {
  }

  lemma NegatedRead(v: int, k: nat, negative: bool)
    ensures Negated(Read(v as real / P10(k), k), negative) == Read((if negative then -v else v) as real / P10(k), k)
  {
    hide P10;
    assert -(v as real / P10(k)) == (-v) as real / P10(k);
  }

  lemma CutOff(r: real, k: nat)
    requires r != 0.0
    ensures Truncate(r, k) == (if r < 0.0 then -(Scaled(Abs(r), k).Floor) else Scaled(Abs(r), k).Floor) as real / P10(k)
  {
    hide Scaled;
    ScaledSign(r, k);
    ScaledAdd(0.0, r, k);
    ScaledZero(k);
    assert 0.0 - r == -r;
  }

  /** Whole numbers print and read back exactly, whatever the digit count says. */
  lemma WholeReadsBack(r: real, k: int)
    requires Whole(r) && r != 0.0 && k <= 0
    ensures Parse(Format(r, k)) == Read(r, 0)
  {
    var n := Abs(r).Floor;
    WholeText(r, k);
    NumeralValue(n, 10);
    var s := Numeral(n, 10);
    DecimalsAreDigits(s);
    assert n > 0 by {
      WholeAbs(r);
    }
    assert Settled(s);
    SignedReads(r, s);
    NoPoint(s);
    WholeAbs(r);
  }

  lemma WholeAbs(r: real)
    requires Whole(r)
    ensures Abs(r).Floor as real == Abs(r)
  {
    WholeOf(-(r.Floor));
    assert r < 0.0 ==> -r == (-(r.Floor)) as real;
  }

  lemma WholeText(r: real, k: int)
    requires Whole(r) && r != 0.0 && k <= 0
    ensures Format(r, k) == Sign(r) + Numeral(Abs(r).Floor, 10)
  {
    hide ToDigits, Numeral;
    WholeAbs(r);
    var a := Abs(r);
    assert a - a.Floor as real == 0.0;
  }

  lemma ZeroReadsBack(k: int)
    ensures Parse(Format(0.0, k)) == Read(0.0, 0)
  {
    hide Parse, Format, Magnitude, Sign, Settled;
    ZeroText(k);
    ZeroMagnitude();
    SignedReads(0.0, "0");
  }

  lemma ZeroText(k: int)
    ensures Format(0.0, k) == Sign(0.0) + "0" && Settled("0")
  {
    hide Numeral, ToDigits, FracDigits, Generated, WithoutTrailingZeros;
    assert Sign(0.0) + "0" == "0";
  }

  lemma ZeroMagnitude()
    ensures Magnitude("0") == Read(0.0, 0)
  {
    hide Value;
    NoPoint("0");
    ZeroInFront("");
    assert "0" + "" == "0";
    EmptyValue();
  }

  lemma EmptyValue()
    ensures Value("", 10) == 0
  {
  }

  /** Every number with a true digit count reads back as itself. */
  lemma PrintedReadsBack(r: real, digits: int)
    requires Multiple(r, digits)
    ensures Parse(Format(r, digits)) == Read(r, if r == 0.0 || digits < 0 then 0 else digits)
  {
    if r == 0.0 {
      ZeroReadsBack(digits);
    } else if digits > 0 {
      FixedReadsBack(r, digits);
      TruncateExact(r, digits);
    } else {
      assert Scaled(r, digits) == r by {
        assert P10(digits) == 1.0;
      }
      WholeReadsBack(r, digits);
    }
  }

  /** A number below one is printed without a zero before the point, with as many digits behind it as asked for. */
  lemma PointComesFirst(r: real, k: nat)
    requires -1.0 < r < 1.0 && r != 0.0 && k > 0
    ensures var t := Format(r, k); var n := if r < 0.0 then 1 else 0;
      |t| == n + 1 + k && t[n] == '.' && (r < 0.0 ==> t[0] == '-')
  {
    hide FracDigits;
    TextOf(r, k);
    assert Abs(r).Floor == 0;
    assert ToDigits(0, 10) == "";
  }
}
