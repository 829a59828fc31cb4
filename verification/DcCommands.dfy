/** What single dc commands do to the numbers on the stack, said by arithmetic. */
module DcCommands {
  import opened Decimal
  import opened SquareRoot
  import opened DcValues
  import opened DcLexer
  import opened DcSemantics
  import DcText
  import Digits
  import NumberTheory

  /** The command succeeds and replaces the top `taken` values by one. */
  ghost predicate LeavesOne(op: char, s: State, taken: nat) {
    var r := Step(op, s);
    && taken <= |s.stack| && r.1.Done? && r.0.stack != []
    && r.0 == s.(stack := s.stack[..|s.stack| - taken] + [Top(r.0.stack)])
  }

  function Answer(op: char, s: State): (v: Value)
    requires Step(op, s).0.stack != []
  {
    Top(Step(op, s).0.stack)
  }

  /** The operand below the top. */
  function First(s: State): Number
    requires |s.stack| >= 2
  {
    AsNumber(s.stack[|s.stack| - 2])
  }

  function Second(s: State): Number
    requires |s.stack| >= 2
  {
    AsNumber(s.stack[|s.stack| - 1])
  }

  lemma BinaryLeaves(op: char, s: State)
    requires IsBinary(op) && op != '~' && |s.stack| >= 2 && (Divides(op) ==> Second(s).rat != 0.0)
    ensures LeavesOne(op, s, 2) && Answer(op, s) == Results(op, First(s), Second(s), s.scale)[0]
  {
    hide Sum, Difference, Product, Quotient, Remainder, Power;
    var rest := Popped(Popped(s.stack));
    assert rest == s.stack[..|s.stack| - 2];
    var v := Results(op, First(s), Second(s), s.scale)[0];
    assert Results(op, First(s), Second(s), s.scale) == [v];
    assert Step(op, s) == (s.(stack := rest + [v]), Done);
  }

  lemma OperandsAreTruthful(s: State)
    requires Good(s) && |s.stack| >= 2
    ensures Truthful(First(s)) && Truthful(Second(s))
  {
    hide Truthful;
    assert Truthful(s.stack[|s.stack| - 2]) && Truthful(s.stack[|s.stack| - 1]);
    AsNumberIsTruthful(s.stack[|s.stack| - 2]);
    AsNumberIsTruthful(s.stack[|s.stack| - 1]);
  }

  /** The greater of two digit counts. */
  ghost predicate IsGreater(d: int, a: int, b: int) { a <= d && b <= d && (d == a || d == b) }

  /** Taking the second operand off the sum again gives the first. */
  lemma SumCommand(s: State)
    requires |s.stack| >= 2
    ensures LeavesOne('+', s, 2)
    ensures var t := Answer('+', s);
      t.Num? && t.rat - Second(s).rat == First(s).rat && IsGreater(t.digits, First(s).digits, Second(s).digits)
  {
    BinaryLeaves('+', s);
  }

  /** Adding the second operand to the difference gives the first. */
  lemma DifferenceCommand(s: State)
    requires |s.stack| >= 2
    ensures LeavesOne('-', s, 2)
    ensures var t := Answer('-', s);
      t.Num? && t.rat + Second(s).rat == First(s).rat && IsGreater(t.digits, First(s).digits, Second(s).digits)
  {
    BinaryLeaves('-', s);
  }

  /** The product is cut toward zero by less than a unit of its last place. It keeps the digits of both operands, or
      where that is fewer the greatest of the scale and their counts. */
  lemma ProductCommand(s: State)
    requires Good(s) && |s.stack| >= 2
    ensures LeavesOne('*', s, 2)
    ensures var t, a, b := Answer('*', s), First(s), Second(s);
      && t.Num?
      && var e := Times(a.rat, b.rat) - t.rat;
      && Scaled(Abs(e), t.digits) < 1.0 && (e == 0.0 || (e > 0.0 <==> Times(a.rat, b.rat) > 0.0))
    ensures var t, a, b := Answer('*', s), First(s), Second(s);
      var both, longer := a.digits + b.digits, Max(a.digits, b.digits);
      -TWO63 <= both < TWO63 ==>
        && (both <= s.scale ==> t.digits == both)
        && (both > s.scale > longer ==> t.digits == s.scale)
        && (both > longer >= s.scale ==> t.digits == longer)
  {
    hide Truthful, Truncate, Times, Scaled;
    BinaryLeaves('*', s);
    OperandsAreTruthful(s);
    ProductIsNear(First(s), Second(s), s.scale);
  }

  /** The quotient is cut toward zero by less than a unit of the last place of the scale. */
  lemma QuotientCommand(s: State)
    requires |s.stack| >= 2 && Second(s).rat != 0.0
    ensures LeavesOne('/', s, 2)
    ensures var t, x := Answer('/', s), First(s).rat / Second(s).rat;
      && t.Num? && t.digits == s.scale
      && Scaled(Abs(x - t.rat), s.scale) < 1.0 && (x == t.rat || (x > t.rat <==> x > 0.0))
  {
    hide Truncate, Times, Scaled;
    BinaryLeaves('/', s);
    TruncateError(First(s).rat / Second(s).rat, s.scale);
  }

  /** The three division commands agree: `~` leaves what `/` leaves and then what `%` leaves. */
  lemma DivisionCommandsAgree(s: State)
    requires |s.stack| >= 2 && Second(s).rat != 0.0
    ensures LeavesOne('/', s, 2) && LeavesOne('%', s, 2)
    ensures Step('~', s) == (s.(stack := s.stack[..|s.stack| - 2] + [Answer('/', s), Answer('%', s)]), Done)
  {
    hide Quotient, Remainder;
    BinaryLeaves('/', s);
    BinaryLeaves('%', s);
    assert Popped(Popped(s.stack)) == s.stack[..|s.stack| - 2];
  }

  /** A division by zero fails and both operands are gone. */
  lemma DivisionByZeroFails(op: char, s: State)
    requires (op == '/' || op == '%' || op == '~') && |s.stack| >= 2 && Second(s).rat == 0.0
    ensures Step(op, s) == (s.(stack := s.stack[..|s.stack| - 2]), Failed)
  {
    assert Popped(Popped(s.stack)) == s.stack[..|s.stack| - 2];
  }

  /** With fewer than two values an operation fails, and a single value stays as a number. */
  lemma TooFewOperands(op: char, s: State)
    requires op in "+-*/%~^" && |s.stack| < 2
    ensures Step(op, s) == (s.(stack := seq(|s.stack|, i requires 0 <= i < |s.stack| => AsNumber(s.stack[i]))), Failed)
  {
    var t: seq<Value> := seq(|s.stack|, i requires 0 <= i < |s.stack| => AsNumber(s.stack[i]));
    assert t == PutBack(s.stack);
    assert IsBinary(op);
  }

  /** Powers by the exponent: nothing multiplied is one; a positive one multiplies that often; a negative one inverts
      and keeps the digits of the scale. Both are cut toward zero by less than a unit of the last place. */
  lemma PowerCommand(s: State)
    requires Good(s) && |s.stack| >= 2
    ensures LeavesOne('^', s, 2) && Answer('^', s).Num?
    ensures var t, a, e := Answer('^', s), First(s), ToInt(Second(s).rat);
      && (e == 0 ==> t == Int(1))
      && (e != 0 && a.rat == 0.0 ==> t.rat == 0.0)
      && (e > 0 && a.rat != 0.0 ==> Scaled(Abs(Repeated(a.rat, e) - t.rat), t.digits) < 1.0)
      && (-TWO63 < e < 0 && a.rat != 0.0 ==>
            && t.digits == s.scale && Repeated(a.rat, -e) != 0.0
            && Scaled(Abs(1.0 / Repeated(a.rat, -e) - t.rat), s.scale) < 1.0)
  {
    hide Truthful, Truncate, Times, Scaled, Repeated;
    BinaryLeaves('^', s);
    var a, e := First(s), ToInt(Second(s).rat);
    if e > 0 && a.rat != 0.0 {
      TruncateError(RealPow(a.rat, e), PowerDigits(a, e, s.scale));
      RepeatedIsPower(a.rat, e);
    } else if -TWO63 < e < 0 && a.rat != 0.0 {
      PowNotZero(a.rat, -e);
      TruncateError(1.0 / RealPow(a.rat, -e), s.scale);
      RepeatedIsPower(a.rat, -e);
    }
  }

  /** b multiplied with itself e times. */
  function Repeated(b: real, e: nat): real { Multiplied(seq(e, i => b)) }

  function Multiplied(xs: seq<real>): real { if xs == [] then 1.0 else xs[0] * Multiplied(xs[1..]) }

  lemma {:induction false} RepeatedIsPower(b: real, e: nat)
    ensures Repeated(b, e) == RealPow(b, e)
  {
    if e > 0 {
      assert seq(e, i => b)[1..] == seq(e - 1, i => b);
      RepeatedIsPower(b, e - 1);
    }
  }

  /** Up to two digits beyond the scale `v` leaves the greatest number of its digits whose square fits;
      a negative number fails and is gone. */
  lemma RootCommand(s: State)
    requires Good(s) && s.stack != []
    ensures var a := AsNumber(Top(s.stack));
      if a.rat < 0.0 then Step('v', s) == (s.(stack := Popped(s.stack)), Failed)
      else
        && LeavesOne('v', s, 1) && Answer('v', s).Num?
        && IsGreater(Answer('v', s).digits, a.digits, s.scale)
        && (a.digits <= s.scale + 2 ==> IsRoot(Answer('v', s).rat, a.rat, Answer('v', s).digits))
  {
    hide Truthful, IsRoot, SqrtOf, Lowest, Truncate, Scaled, Ten;
    var a := AsNumber(Top(s.stack));
    assert Truthful(Top(s.stack));
    AsNumberIsTruthful(Top(s.stack));
    if a.rat >= 0.0 {
      assert Popped(s.stack) == s.stack[..|s.stack| - 1];
      if a.digits <= s.scale + 2 {
        RootIsGreatestNumber(a, s.scale);
      }
    }
  }

  /** `|` on whole numbers: what it leaves is congruent to the power and lies between zero and the modulus. */
  lemma ModularPowerCommand(s: State, b: int, e: nat, m: int) returns (q: int, r: int)
    requires |s.stack| >= 3 && e > 0 && m != 0
    requires var n := |s.stack| - 3; s.stack[n].Num? && s.stack[n + 1].Num? && s.stack[n + 2].Num?
    requires var n := |s.stack| - 3;
      s.stack[n].rat == b as real && s.stack[n + 1].rat == e as real && s.stack[n + 2].rat == m as real
    ensures LeavesOne('|', s, 3)
    ensures Answer('|', s) == Int(r) && 0 <= r < (if m > 0 then m else -m) && NumberTheory.Pow(b, e) == q * m + r
  {
    hide NumberTheory.Pow;
    WholeTrunc(b);
    WholeTrunc(e);
    WholeTrunc(m);
    var p := NumberTheory.Pow(b, e);
    q, r := p / m, p % m;
    assert Step('|', s) == (s.(stack := s.stack[..|s.stack| - 3] + [Int(p % m)]), Done);
  }

  lemma WholeTrunc(n: int)
    ensures Trunc(n as real) == n
  {
  }

  /** The comparisons leave one or zero: the operand below the top is greater, is not less, is equal. */
  lemma CompareCommands(op: char, s: State)
    requires op in "({G" && |s.stack| >= 2
    ensures LeavesOne(op, s, 2)
    ensures var t, a, b := Answer(op, s), First(s).rat, Second(s).rat;
      && (t == Int(1) || t == Int(0))
      && (op == '(' ==> (t == Int(1) <==> a > b))
      && (op == '{' ==> (t == Int(1) <==> a >= b))
      && (op == 'G' ==> (t == Int(1) <==> a == b))
  {
    assert Popped(Popped(s.stack)) == s.stack[..|s.stack| - 2];
    assert Step(op, s) == CompareStep(op, s);
  }

  /** What the tests compare: the top with the operand below it. */
  ghost predicate TestHolds(op: char, a: real, b: real) {
    && (op == '<' ==> b < a)
    && (op == '>' ==> b > a)
    && (op == '=' ==> b == a)
  }

  /** A test takes both operands and calls its register when it holds; otherwise the register of an else clause. */
  lemma TestCommand(s: State, op: char, c: char, tail: string, fuel: nat)
    requires op in "<>=" && |s.stack| >= 2
    ensures var p, below := [op, c] + tail, s.(stack := s.stack[..|s.stack| - 2]);
      var t := Turn(s, p, 0, false, fuel);
      if TestHolds(op, First(s).rat, Second(s).rat) then
        (t.state, t.outcome) == CallRegister(below, [c], false, fuel) && t.next == 2
      else if tail != "" && tail[0] == 'e' then
        if |tail| > 1 then (t.state, t.outcome) == CallRegister(below, [tail[1]], false, fuel) && t.next == 4
        else t == Turned(below, Done, 3)
      else t == Turned(below, Done, 2)
  {
    hide CallRegister;
    var p := [op, c] + tail;
    assert p[0] == op && p[1] == c && forall i | 0 <= i < |tail| :: p[i + 2] == tail[i];
    assert Popped(Popped(s.stack)) == s.stack[..|s.stack| - 2];
    assert RegName(p, 1, false) == [c] && RegEnd(p, 1, false) == 2;
    assert Turn(s, p, 0, false, fuel) == Conditional(op, false, s, p, 1, false, fuel);
  }

  /** A negated test with an else clause is the test with its registers exchanged. */
  lemma NegatedTest(s: State, op: char, c: char, d: char, fuel: nat)
    requires op in "<>=" && |s.stack| >= 2
    ensures var t, u := Turn(s, ['!', op, c, 'e', d], 0, false, fuel), Turn(s, [op, d, 'e', c], 0, false, fuel);
      t.state == u.state && t.outcome == u.outcome
  {
    hide CallRegister;
    var p, q := ['!', op, c, 'e', d], [op, d, 'e', c];
    assert Turn(s, p, 0, false, fuel) == Conditional(op, true, s, p, 2, false, fuel);
    assert Turn(s, q, 0, false, fuel) == Conditional(op, false, s, q, 1, false, fuel);
  }

  // ---- The stack and the scale ----

  /** `d` and then `R` leave everything as it was; `d` shows the top value again. */
  lemma DuplicateDropped(s: State)
    requires s.stack != []
    ensures var d := Step('d', s).0;
      && d == s.(stack := s.stack + [Top(d.stack)]) && Shown(Top(d.stack)) == Shown(Top(s.stack))
      && Step('R', d) == (s, Done)
  {
    hide DcText.Format;
    var t := s.stack + [Copied(Top(s.stack))];
    assert t[..|t| - 1] == s.stack;
    assert Step('d', s) == (s.(stack := t), Done);
  }

  /** `r` exchanges the top two values, and a second one undoes it. */
  lemma ExchangedTwice(s: State)
    requires |s.stack| >= 2
    ensures var n := |s.stack|; Step('r', s).0.stack == s.stack[..n - 2] + [s.stack[n - 1]] + [s.stack[n - 2]]
    ensures Step('r', Step('r', s).0) == (s, Done)
  {
    var n := |s.stack|;
    var t := s.stack[..n - 2] + [s.stack[n - 1], s.stack[n - 2]];
    assert t == s.stack[..n - 2] + [s.stack[n - 1]] + [s.stack[n - 2]];
    assert Step('r', s) == (s.(stack := t), Done);
    assert t[..n - 2] + [t[n - 1], t[n - 2]] == s.stack;
    assert Rearranged('r', s.(stack := t)) == s.stack;
  }

  /** `z` leaves the number of values there were, and `c` none. */
  lemma StackCounted(s: State)
    ensures LeavesOne('z', s, 0) && Answer('z', s) == Int(|s.stack|)
    ensures Step('c', s) == (s.(stack := []), Done)
  {
    assert s.stack[..|s.stack|] == s.stack;
  }

  /** What `K` leaves, `k` takes: the scale is as before. */
  lemma ScaleRestored(s: State)
    requires s.scale < TWO63
    ensures LeavesOne('K', s, 0) && Step('k', Step('K', s).0) == (s, Done)
  {
    hide ToInt;
    SmallInt(s.scale);
    assert s.stack[..|s.stack|] == s.stack;
    var v := Num(s.scale as real, s.scale, false);
    var t := s.(stack := s.stack + [v]);
    assert Step('K', s) == (t, Done);
    assert Popped(t.stack) == s.stack && Top(t.stack) == v;
    assert Step('k', t) == ScaleStep(t);
  }

  lemma SmallInt(n: int)
    requires -TWO63 <= n < TWO63
    ensures ToInt(n as real) == n
  {
    hide Wrap64;
    WholeTrunc(n);
  }

  /** `k` takes a whole number as the scale; a negative one counts as zero. */
  lemma ScaleIsSet(s: State, n: int)
    requires s.stack != [] && Top(s.stack).Num? && Top(s.stack).rat == n as real && -TWO63 <= n < TWO63
    ensures Step('k', s) == (s.(stack := s.stack[..|s.stack| - 1], scale := if n < 0 then 0 else n), Done)
  {
    hide ToInt;
    SmallInt(n);
    assert Step('k', s) == ScaleStep(s);
  }

  /** Storing and loading again leaves the value, without the mark of a negative zero, and the register holds it. */
  lemma StoredValueLoads(s: State, c: char, fuel: nat)
    requires s.stack != []
    ensures var r := Run(s, ['s', c, 'l', c], 0, false, fuel);
      && r.1.Done? && r.0.regs == s.regs[[c] := [Copied(Top(s.stack))]]
      && r.0 == s.(stack := s.stack[..|s.stack| - 1] + [Copied(Top(s.stack))], regs := r.0.regs)
  {
    var p := ['s', c, 'l', c];
    var mid := s.(stack := Popped(s.stack), regs := s.regs[[c] := [Copied(Top(s.stack))]]);
    var end := mid.(stack := mid.stack + [Copied(Copied(Top(s.stack)))]);
    assert RegName(p, 1, false) == [c] && RegEnd(p, 1, false) == 2;
    assert RegName(p, 3, false) == [c] && RegEnd(p, 3, false) == 4;
    assert Turn(s, p, 0, false, fuel) == Turned(mid, Done, 2);
    assert Turn(mid, p, 2, false, fuel) == Turned(end, Done, 4);
    assert Run(s, p, 0, false, fuel) == Run(mid, p, 2, false, fuel);
    assert Run(mid, p, 2, false, fuel) == Run(end, p, 4, false, fuel);
  }

  /** `?` runs the next line of input in place when that succeeds. */
  lemma InputLineRunsInPlace(s: State, line: string, extended: bool, fuel: nat)
    requires fuel > 0 && s.input != [] && s.input[0] == line
    requires Run(s.(input := s.input[1..]), line, 0, extended, fuel - 1).1.Done?
    ensures Run(s, "?", 0, extended, fuel) == Run(s.(input := s.input[1..]), line, 0, extended, fuel - 1)
  {
    var r := Run(s.(input := s.input[1..]), line, 0, extended, fuel - 1);
    assert Query(s, extended, fuel) == r;
    assert Turn(s, "?", 0, extended, fuel) == Turned(r.0, r.1, 1);
    assert Run(r.0, "?", 1, extended, fuel) == (r.0, Done);
  }

  // ---- Numbers as they are typed ----

  lemma {:induction false} RowOfDigits(s: string, i: nat, e: nat)
    requires i <= e <= |s| && (forall j | i <= j < e :: IsDigit(s[j])) && (e < |s| ==> !IsDigit(s[e]))
    ensures DigitsEnd(s, i) == e
    decreases e - i
  {
    if i < e {
      RowOfDigits(s, i + 1, e);
    }
  }

  function Typed(negative: bool, s: string): string { (if negative then "_" else "") + s }

  lemma OneZeroLess(p: string, q: string)
    requires |p| > 1 && p[0] == '0' && DcText.Decimals(p)
    ensures DcText.Decimals(p[1..])
    ensures DcText.WithoutLeadingZeros(p + "." + q) == DcText.WithoutLeadingZeros(p[1..] + "." + q)
    ensures p + q == "0" + (p[1..] + q)
  {
    var s := p + "." + q;
    assert s[0] == '0' && s[1] == p[1] && s[1..] == p[1..] + "." + q;
  }

  lemma NoZeroLess(p: string, q: string)
    requires |p| <= 1 || p[0] != '0'
    ensures DcText.WithoutLeadingZeros(p + "." + q) == p + "." + q
  {
    var s := p + "." + q;
    assert |p| > 0 ==> s[0] == p[0];
    assert |p| == 0 ==> s[0] == '.';
    assert |p| == 1 ==> s[1] == '.';
  }

  lemma NotJustPoint(p: string, q: string)
    requires q != ""
    ensures DcText.OrZero(p + "." + q) == p + "." + q
  {
    assert |p + "." + q| > 1;
  }

  /** Zeros in front do not count. */
  lemma {:induction false} PointedMagnitude(p: string, q: string)
    requires DcText.Decimals(p) && DcText.Decimals(q) && q != ""
    ensures DcText.Magnitude(DcText.OrZero(DcText.WithoutLeadingZeros(p + "." + q))) ==
      DcText.Read(Digits.Value(p + q, 10) as real / P10(|q|), |q|)
    decreases |p|
  {
    hide Digits.Value, DcText.Magnitude, P10, DcText.Decimals, DcText.WithoutLeadingZeros, DcText.OrZero;
    if |p| > 1 && p[0] == '0' {
      OneZeroLess(p, q);
      PointedMagnitude(p[1..], q);
      DcText.ZeroInFront(p[1..] + q);
    } else {
      NoZeroLess(p, q);
      NotJustPoint(p, q);
      DcText.FixedMagnitude(p, q);
    }
  }

  lemma {:induction false} WholeMagnitude(p: string)
    requires DcText.Decimals(p) && p != ""
    ensures DcText.Magnitude(DcText.OrZero(DcText.WithoutLeadingZeros(p))) ==
      DcText.Read(Digits.Value(p, 10) as real, 0)
    decreases |p|
  {
    hide Digits.Value;
    if |p| > 1 && p[0] == '0' {
      var t := p[1..];
      WholeMagnitude(t);
      DcText.ZeroInFront(t);
      assert p == "0" + t;
    } else {
      DcText.NoPoint(p);
      assert p != ".";
    }
  }

  lemma TypedParses(negative: bool, s: string)
    requires s != "" && (IsDigit(s[0]) || s[0] == '.')
    ensures DcText.Parse(Typed(negative, s)) ==
      DcText.Negated(DcText.Magnitude(DcText.OrZero(DcText.WithoutLeadingZeros(s))), negative)
  {
    hide DcText.Magnitude, DcText.WithoutLeadingZeros, DcText.OrZero;
    var text := Typed(negative, s);
    if negative {
      assert text[0] == '_' && text[1..] == s;
    } else {
      assert text == s;
    }
    assert DcText.Unblanked(text) == text;
    assert DcText.Unprefixed(text, '_') == s && DcText.Unprefixed(s, '-') == s;
  }

  /** A program that is one numeral pushes what it reads as. */
  lemma NumeralIsPushed(s: State, text: string, extended: bool, fuel: nat)
    requires text != "" && (IsDigit(text[0]) || text[0] == '_' || text[0] == '.') && NumeralEnd(text, 0) == |text|
    ensures DcText.Parse(text).Read? && Run(s, text, 0, extended, fuel) == (Pushed(s, Numeral(text)), Done)
  {
    hide NumeralEnd, DcText.Parse;
    NumeralIsRead(text, 0);
    assert text[0..|text|] == text;
    var t := Pushed(s, Numeral(text));
    assert Turn(s, text, 0, extended, fuel) == Turned(t, Done, |text|);
    assert Run(t, text, |text|, extended, fuel) == (t, Done);
  }

  lemma TypedAt(negative: bool, body: string, i: nat)
    requires i < |body|
    ensures var start := if negative then 1 else 0;
      |Typed(negative, body)| == start + |body| && Typed(negative, body)[start + i] == body[i]
  {
  }

  lemma PointedLexes(negative: bool, p: string, q: string)
    requires DcText.Decimals(p) && DcText.Decimals(q) && q != ""
    ensures NumeralEnd(Typed(negative, p + "." + q), 0) == |Typed(negative, p + "." + q)|
  {
    hide Typed;
    var body := p + "." + q;
    var text, start := Typed(negative, body), if negative then 1 else 0;
    TypedAt(negative, body, |p|);
    forall j | start <= j < start + |p|
      ensures IsDigit(text[j])
    {
      TypedAt(negative, body, j - start);
      assert body[j - start] == p[j - start];
    }
    forall j | start + |p| + 1 <= j < |text|
      ensures IsDigit(text[j])
    {
      TypedAt(negative, body, j - start);
      assert body[j - start] == q[j - start - |p| - 1];
    }
    RowOfDigits(text, start, start + |p|);
    RowOfDigits(text, start + |p| + 1, |text|);
    TypedStart(negative, body);
  }

  lemma TypedStart(negative: bool, body: string)
    requires body != "" && body[0] != '_'
    ensures Typed(negative, body) != "" && (Typed(negative, body)[0] == '_' <==> negative)
    ensures !negative ==> Typed(negative, body) == body
  {
  }

  /** Digits with a point push the number they write, with as many digits as follow the point; an underscore in front
      makes it negative. */
  lemma PointedNumberIsPushed(s: State, negative: bool, p: string, q: string, extended: bool, fuel: nat)
    requires DcText.Decimals(p) && DcText.Decimals(q) && q != ""
    ensures var x := Digits.Value(p + q, 10) as real / P10(|q|);
      Run(s, Typed(negative, p + "." + q), 0, extended, fuel) ==
      (s.(stack := s.stack + [Num(if negative then -x else x, |q|, false)]), Done)
  {
    hide Digits.Value, DcText.Magnitude, P10, Run, DcText.Parse, NumeralEnd, Typed, DcText.OrZero;
    var body := p + "." + q;
    assert body[0] == '.' || (p != "" && body[0] == p[0]);
    PointedLexes(negative, p, q);
    TypedStart(negative, body);
    NumeralIsPushed(s, Typed(negative, body), extended, fuel);
    TypedParses(negative, body);
    PointedMagnitude(p, q);
  }

  lemma WholeLexes(negative: bool, p: string)
    requires DcText.Decimals(p) && p != ""
    ensures NumeralEnd(Typed(negative, p), 0) == |Typed(negative, p)|
  {
    hide Typed;
    var text, start := Typed(negative, p), if negative then 1 else 0;
    TypedAt(negative, p, 0);
    forall j | start <= j < |text|
      ensures IsDigit(text[j])
    {
      TypedAt(negative, p, j - start);
      assert text[start + (j - start)] == p[j - start];
    }
    RowOfDigits(text, start, |text|);
    TypedStart(negative, p);
  }

  /** Digits alone push a whole number. */
  lemma WholeNumberIsPushed(s: State, negative: bool, p: string, extended: bool, fuel: nat)
    requires DcText.Decimals(p) && p != ""
    ensures var x := Digits.Value(p, 10) as real;
      Run(s, Typed(negative, p), 0, extended, fuel) ==
      (s.(stack := s.stack + [Num(if negative then -x else x, 0, false)]), Done)
  {
    hide Digits.Value, DcText.Magnitude, Run, DcText.Parse, NumeralEnd, Typed, DcText.OrZero;
    WholeLexes(negative, p);
    TypedStart(negative, p);
    NumeralIsPushed(s, Typed(negative, p), extended, fuel);
    TypedParses(negative, p);
    WholeMagnitude(p);
  }

  // ---- Conversions ----

  lemma {:induction false} NothingRemoved(s: string)
    requires '.' !in s
    ensures Without(s, '.') == s
  {
    if s != "" {
      NothingRemoved(s[1..]);
    }
  }

  lemma LengthOfWhole(n: nat)
    requires n > 0
    ensures Length(Int(n), 0) == |Digits.Numeral(n, 10)|
  {
    hide Digits.ToDigits, Digits.FracDigits, DcText.Generated, Digits.Numeral;
    var t := Digits.Numeral(n, 10);
    Digits.NumeralValue(n, 10);
    WholeOf(n);
    assert DcText.Format(n as real, 0) == DcText.Sign(n as real) + t;
    assert DcText.Sign(n as real) + t == t;
    NothingRemoved(t);
  }

  /** At scale zero `Z` leaves the number of decimal digits of a whole number. */
  lemma LengthCommand(s: State, n: nat) returns (k: nat)
    requires s.scale == 0 && n > 0 && s.stack != [] && Top(s.stack) == Int(n)
    ensures LeavesOne('Z', s, 1) && Answer('Z', s) == Int(k)
    ensures k >= 1 && Ten(k - 1) <= n < Ten(k)
  {
    hide Digits.Numeral, Ten, Length;
    k := |Digits.Numeral(n, 10)|;
    Digits.NumeralLength(n, 10);
    Digits.IntPowTen(k - 1);
    Digits.IntPowTen(k);
    LengthOfWhole(n);
    assert Popped(s.stack) == s.stack[..|s.stack| - 1];
  }

  /** `N` leaves one for a zero and for an empty string, and zero for anything else. */
  lemma NothingCommand(s: State)
    requires s.stack != []
    ensures LeavesOne('N', s, 1)
    ensures var v := Top(s.stack);
      Answer('N', s) == if v == Str("") || (v.Num? && v.rat == 0.0) then Int(1) else Int(0)
  {
    assert Popped(s.stack) == s.stack[..|s.stack| - 1];
  }

  /** `a` leaves the character of a small number. */
  lemma CharacterCommand(s: State, n: nat)
    requires s.stack != [] && Top(s.stack).Num? && Top(s.stack).rat == n as real && n < 256
    ensures LeavesOne('a', s, 1) && Answer('a', s) == Str([n as char])
  {
    hide ToInt;
    SmallInt(n);
    assert Popped(s.stack) == s.stack[..|s.stack| - 1];
  }

  /** `n` takes the top value and writes it at the end of the last line; earlier lines stay. */
  lemma AppendCommand(s: State)
    requires s.stack != []
    ensures var r := Step('n', s);
      && r.1.Done? && r.0 == s.(stack := s.stack[..|s.stack| - 1], output := r.0.output)
      && r.0.output != [] && (s.output != [] ==> |r.0.output| == |s.output|)
      && r.0.output[..|r.0.output| - 1] == (if s.output == [] then [] else s.output[..|s.output| - 1])
      && r.0.output[|r.0.output| - 1] == (if s.output == [] then "" else s.output[|s.output| - 1]) + Shown(Top(s.stack))
  {
    hide Shown;
    assert Popped(s.stack) == s.stack[..|s.stack| - 1];
    assert "" + Shown(Top(s.stack)) == Shown(Top(s.stack));
  }

  lemma {:induction false} PlainTextIsUnescaped(t: string)
    requires '\\' !in t
    ensures Unescaped(t) == t
  {
    if t != "" {
      PlainTextIsUnescaped(t[1..]);
    }
  }

  /** The escapes that `P` replaces, and that it leaves the others as they are. */
  lemma EscapesAreReplaced(c: char, rest: string)
    ensures Unescaped(['\\', c] + rest) ==
      (if c == 'n' then "\n" else if c == 't' then "\t" else if c == 'r' then "\r" else if c == '\\' then "\\"
       else ['\\', c]) + Unescaped(rest)
  {
    var t := ['\\', c] + rest;
    assert t[2..] == rest;
  }

  /** A register that nothing was stored in loads as zero; storing from an empty stack leaves an empty string in it. */
  lemma EmptyRegister(s: State, c: char, fuel: nat)
    ensures [c] !in s.regs ==> Run(s, ['l', c], 0, false, fuel) == (s.(stack := s.stack + [Int(0)]), Done)
    ensures s.stack == [] ==> Run(s, ['s', c], 0, false, fuel) == (s.(regs := s.regs[[c] := [Str("")]]), Done)
    ensures [c] !in s.regs ==> Run(s, ['L', c], 0, false, fuel) == (s, Done)
  {
    RegisterProgram(s, 'l', c, fuel);
    RegisterProgram(s, 's', c, fuel);
    RegisterProgram(s, 'L', c, fuel);
  }

  lemma RegisterProgram(s: State, op: char, c: char, fuel: nat)
    requires UsesRegister(op)
    ensures Run(s, [op, c], 0, false, fuel) == (RegisterStep(op, [c], s), Done)
  {
    hide RegisterStep;
    var p, t := [op, c], RegisterStep(op, [c], s);
    assert RegName(p, 1, false) == [c] && RegEnd(p, 1, false) == 2;
    assert Turn(s, p, 0, false, fuel) == Turned(t, Done, 2);
    assert Run(t, p, 2, false, fuel) == (t, Done);
  }

  /** A comment without a line end behind it does nothing. */
  lemma CommentIsIgnored(s: State, text: string, extended: bool, fuel: nat)
    requires '\n' !in text
    ensures Run(s, "#" + text, 0, extended, fuel) == (s, Done)
  {
    var p := "#" + text;
    assert forall i | 1 <= i < |p| :: p[i] == text[i - 1];
    CommentGoesOn(p, 1);
    assert Turn(s, p, 0, extended, fuel) == Turned(s, Done, |p|);
    assert Run(s, p, |p|, extended, fuel) == (s, Done);
  }

  lemma {:induction false} CommentGoesOn(p: string, i: nat)
    requires i <= |p| && forall j | i <= j < |p| :: p[j] != '\n'
    ensures CommentEnd(p, i) == |p|
    decreases |p| - i
  {
    if i < |p| {
      CommentGoesOn(p, i + 1);
    }
  }
}
