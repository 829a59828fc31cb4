/** What holds over every run of every dc program. */
module DcRuns {
  import opened Decimal
  import opened DcValues
  import opened DcLexer
  import opened DcSemantics
  import DcText

  // ---- Digit counts stay true ----

  lemma PushTruthful(vs: seq<Value>, ws: seq<Value>)
    requires AllTruthful(vs) && AllTruthful(ws)
    ensures AllTruthful(vs + ws)
  {
  }

  lemma PrefixTruthful(vs: seq<Value>, n: nat)
    requires AllTruthful(vs) && n <= |vs|
    ensures AllTruthful(vs[..n])
  {
  }

  lemma OneTruthful(v: Value)
    requires Truthful(v)
    ensures AllTruthful([v])
  {
  }

  lemma TopTruthful(vs: seq<Value>)
    requires AllTruthful(vs) && vs != []
    ensures Truthful(Top(vs)) && Truthful(AsNumber(Top(vs))) && Truthful(Copied(Top(vs))) && AllTruthful(Popped(vs))
  {
    hide Multiple;
    AsNumberIsTruthful(Top(vs));
    PrefixTruthful(vs, |vs| - 1);
  }

  lemma BinaryKeeps(op: char, s: State)
    requires IsBinary(op) && AllTruthful(s.stack) && BinaryStep(op, s).1.Done?
    ensures AllTruthful(BinaryStep(op, s).0.stack)
  {
    hide AllTruthful, Truthful, Results;
    TopTruthful(s.stack);
    TopTruthful(Popped(s.stack));
    var b, below := AsNumber(Top(s.stack)), Popped(s.stack);
    var a := AsNumber(Top(below));
    ResultsAreTruthful(op, a, b, s.scale);
    PushTruthful(Popped(below), Results(op, a, b, s.scale));
  }

  lemma RootKeeps(s: State)
    requires AllTruthful(s.stack) && RootStep(s).1.Done?
    ensures AllTruthful(RootStep(s).0.stack)
  {
    hide AllTruthful, Truthful, Root;
    TopTruthful(s.stack);
    var a := AsNumber(Top(s.stack));
    RootIsTruthful(a, s.scale);
    OneTruthful(Root(a, s.scale));
    PushTruthful(Popped(s.stack), [Root(a, s.scale)]);
  }

  lemma PushIntKeeps(vs: seq<Value>, n: int)
    requires AllTruthful(vs)
    ensures AllTruthful(vs + [Int(n)])
  {
    hide AllTruthful, Truthful;
    IntIsTruthful(n);
    OneTruthful(Int(n));
    PushTruthful(vs, [Int(n)]);
  }

  lemma ModPowerKeeps(s: State)
    requires AllTruthful(s.stack) && ModPowerStep(s).1.Done?
    ensures AllTruthful(ModPowerStep(s).0.stack)
  {
    hide AllTruthful, Truthful, ModPower, Int;
    var n := |s.stack| - 3;
    PrefixTruthful(s.stack, n);
    var r := ModPower(AsNumber(s.stack[n]).rat, AsNumber(s.stack[n + 1]).rat, AsNumber(s.stack[n + 2]).rat);
    PushIntKeeps(s.stack[..n], r.value);
  }

  lemma CompareKeeps(op: char, s: State)
    requires AllTruthful(s.stack) && CompareStep(op, s).1.Done?
    ensures AllTruthful(CompareStep(op, s).0.stack)
  {
    hide AllTruthful, Truthful, Holds, Int;
    TopTruthful(s.stack);
    var b, below := AsNumber(Top(s.stack)), Popped(s.stack);
    TopTruthful(below);
    PushIntKeeps(Popped(below), if Holds(op, AsNumber(Top(below)).rat, b.rat) then 1 else 0);
  }

  lemma ConvertKeeps(op: char, s: State)
    requires AllTruthful(s.stack) && ConvertStep(op, s).1.Done?
    ensures AllTruthful(ConvertStep(op, s).0.stack)
  {
    hide AllTruthful, Int, Length, Character, IsNothing;
    if s.stack != [] {
      var v := Top(s.stack);
      TopTruthful(s.stack);
      PushIntKeeps(Popped(s.stack), Length(v, s.scale));
      PushIntKeeps(Popped(s.stack), if IsNothing(v) then 1 else 0);
      OneTruthful(Str(Character(v)));
      PushTruthful(Popped(s.stack), [Str(Character(v))]);
    }
  }

  lemma RearrangedKeeps(op: char, s: State)
    requires AllTruthful(s.stack)
    ensures AllTruthful(Rearranged(op, s))
  {
    hide Multiple;
    IntIsTruthful(|s.stack|);
    IntIsTruthful(s.scale);
  }

  /** A command that succeeds keeps every digit count true. */
  lemma StepKeepsTruth(ch: char, s: State)
    requires Good(s) && Step(ch, s).1.Done?
    ensures Good(Step(ch, s).0)
  {
    hide AllTruthful, BinaryStep, RootStep, ModPowerStep, CompareStep, ConvertStep, Rearranged;
    StepKeepsRegisters(ch, s);
    if IsBinary(ch) {
      BinaryKeeps(ch, s);
    } else if ch == 'v' {
      RootKeeps(s);
    } else if ch == '|' {
      ModPowerKeeps(s);
    } else if Compares(ch) {
      CompareKeeps(ch, s);
    } else if Converts(ch) {
      ConvertKeeps(ch, s);
    } else if Rearranges(ch) {
      RearrangedKeeps(ch, s);
    } else if s.stack != [] {
      TopTruthful(s.stack);
    }
  }

  lemma StepKeepsRegisters(ch: char, s: State)
    ensures Step(ch, s).0.regs == s.regs
  {
    hide Results, Root, ModPower, Holds, Converted, Rearranged, AllShown;
  }

  lemma RegisterKeepsTruth(op: char, reg: string, s: State)
    requires Good(s)
    ensures Good(RegisterStep(op, reg, s))
  {
    hide Truthful, AllTruthful;
    if s.stack != [] {
      TopTruthful(s.stack);
      OneTruthful(Copied(Top(s.stack)));
    }
    NothingTruthful();
    var vals := Register(s, reg);
    if vals != [] {
      TopTruthful(vals);
      OneTruthful(Copied(Top(vals)));
      PushTruthful(s.stack, [Copied(Top(vals))]);
    }
    PushIntKeeps(s.stack, 0);
    if s.stack != [] {
      PushTruthful(vals, [Copied(Top(s.stack))]);
    }
  }

  lemma NothingTruthful()
    ensures AllTruthful([]) && AllTruthful([Str("")])
  {
  }

  /** Over a whole run, macros and lines of input included, every digit count stays true until an error ends the run
      or is passed over by `?`. */
  lemma {:induction false} RunKeepsTruth(s: State, p: string, i: nat, extended: bool, fuel: nat)
    requires i <= |p| && Good(s) && Run(s, p, i, extended, fuel).1.Done? && !Run(s, p, i, extended, fuel).0.dropped
    ensures Good(Run(s, p, i, extended, fuel).0)
    decreases fuel, |p| - i, 2
  {
    hide Good, Turn;
    if i < |p| {
      var t := Turn(s, p, i, extended, fuel);
      RunKeepsDrops(t.state, p, t.next, extended, fuel);
      TurnKeepsTruth(s, p, i, extended, fuel);
      RunKeepsTruth(t.state, p, t.next, extended, fuel);
    }
  }

  lemma {:induction false} MacroKeepsTruth(s: State, text: string, extended: bool, fuel: nat)
    requires Good(s) && Macro(s, text, extended, fuel).1.Done? && !Macro(s, text, extended, fuel).0.dropped
    ensures Good(Macro(s, text, extended, fuel).0)
    decreases fuel, 0, 0
  {
    hide Good, Run;
    if fuel > 0 {
      RunKeepsTruth(s, text, 0, extended, fuel - 1);
    }
  }

  lemma {:induction false} CallKeepsTruth(s: State, reg: string, extended: bool, fuel: nat)
    requires Good(s) && CallRegister(s, reg, extended, fuel).1.Done? && !CallRegister(s, reg, extended, fuel).0.dropped
    ensures Good(CallRegister(s, reg, extended, fuel).0)
    decreases fuel, 0, 1
  {
    hide Good, Macro;
    var vals := Register(s, reg);
    if vals != [] && Top(vals).Str? {
      MacroKeepsTruth(s, Top(vals).text, extended, fuel);
    }
  }

  lemma PoppedGood(s: State)
    requires Good(s) && s.stack != []
    ensures Good(s.(stack := Popped(s.stack)))
  {
    hide Truthful;
    TopTruthful(s.stack);
  }

  lemma {:induction false} ConditionalKeepsTruth(op: char, negated: bool, s: State, p: string, j: nat, extended: bool, fuel: nat)
    requires j <= |p| && Good(s) && Conditional(op, negated, s, p, j, extended, fuel).outcome.Done?
    requires !Conditional(op, negated, s, p, j, extended, fuel).state.dropped
    ensures Good(Conditional(op, negated, s, p, j, extended, fuel).state)
    decreases fuel, 0, 2
  {
    hide Good, CallRegister, Holds, RegName, RegEnd;
    var reg, k := RegName(p, j, extended), RegEnd(p, j, extended);
    if reg != "" && |s.stack| >= 2 {
      PoppedGood(s);
      PoppedGood(s.(stack := Popped(s.stack)));
      var b, below := AsNumber(Top(s.stack)), Popped(s.stack);
      var a, popped := AsNumber(Top(below)), s.(stack := Popped(below));
      if Holds(op, a.rat, b.rat) != negated {
        CallKeepsTruth(popped, reg, extended, fuel);
      } else if k < |p| && p[k] == 'e' {
        var other := RegName(p, k + 1, extended);
        if other != "" {
          CallKeepsTruth(popped, other, extended, fuel);
        }
      }
    }
  }

  lemma {:induction false} QueryKeepsTruth(s: State, extended: bool, fuel: nat)
    requires Good(s) && Query(s, extended, fuel).1.Done? && !Query(s, extended, fuel).0.dropped
    ensures Good(Query(s, extended, fuel).0)
    decreases fuel, 0, 1
  {
    hide AllTruthful, Macro;
    if s.input != [] && s.input[0] != "" {
      var rest := s.(input := s.input[1..]);
      MacroKeepsTruth(rest, s.input[0], extended, fuel);
    }
  }

  lemma PushedKeepsTruth(s: State, v: Value)
    requires Good(s) && Truthful(v)
    ensures Good(Pushed(s, v))
  {
    hide Truthful;
    OneTruthful(v);
    PushTruthful(s.stack, [v]);
  }

  lemma {:induction false} TurnKeepsTruth(s: State, p: string, i: nat, extended: bool, fuel: nat)
    requires i < |p| && Good(s) && Turn(s, p, i, extended, fuel).outcome.Done? && !Turn(s, p, i, extended, fuel).state.dropped
    ensures Good(Turn(s, p, i, extended, fuel).state)
    decreases fuel, |p| - i, 1
  {
    hide Good, Truthful, Macro, Query, Conditional, Step, RegisterStep, Literal, NumeralEnd, CommentEnd, RegName, RegEnd, DcText.Parse;
    var ch := p[i];
    if IsBlank(ch) || ch == '#' {
    } else if ch == '[' {
      StringIsTruthful(Literal(p[i + 1..], 1).0);
      PushedKeepsTruth(s, Str(Literal(p[i + 1..], 1).0));
    } else if IsDigit(ch) || ch == '_' || ch == '.' {
      var e := NumeralEnd(p, i);
      if e != i {
        NumeralIsRead(p, i);
        DcText.ReadIsMultiple(p[i..e]);
        NumeralIsTruthful(p[i..e]);
        PushedKeepsTruth(s, Numeral(p[i..e]));
      }
    } else if UsesRegister(ch) {
      RegisterKeepsTruth(ch, RegName(p, i + 1, extended), s);
    } else if ch == 'x' {
      if s.stack != [] && Top(s.stack).Str? {
        PoppedGood(s);
        MacroKeepsTruth(s.(stack := Popped(s.stack)), Top(s.stack).text, extended, fuel);
      }
    } else if ch == '?' {
      QueryKeepsTruth(s, extended, fuel);
    } else if IsTest(ch) {
      ConditionalKeepsTruth(ch, false, s, p, i + 1, extended, fuel);
    } else if ch == '!' {
      if i + 1 < |p| && IsTest(p[i + 1]) {
        ConditionalKeepsTruth(p[i + 1], true, s, p, i + 2, extended, fuel);
      }
    } else {
      StepKeepsTruth(ch, s);
    }
  }

  /** What `?` has passed over stays on record. */
  lemma {:induction false} RunKeepsDrops(s: State, p: string, i: nat, extended: bool, fuel: nat)
    requires i <= |p|
    ensures s.dropped ==> Run(s, p, i, extended, fuel).0.dropped
    decreases fuel, |p| - i, 2
  {
    hide Turn;
    if i < |p| {
      TurnKeepsDrops(s, p, i, extended, fuel);
      var t := Turn(s, p, i, extended, fuel);
      if t.outcome.Done? {
        RunKeepsDrops(t.state, p, t.next, extended, fuel);
      }
    }
  }

  lemma {:induction false} MacroKeepsDrops(s: State, text: string, extended: bool, fuel: nat)
    ensures s.dropped ==> Macro(s, text, extended, fuel).0.dropped
    decreases fuel, 0, 0
  {
    hide Run;
    if fuel > 0 {
      RunKeepsDrops(s, text, 0, extended, fuel - 1);
    }
  }

  lemma StepKeepsInput(ch: char, s: State)
    ensures Step(ch, s).0.dropped == s.dropped && Step(ch, s).0.input == s.input
  {
    hide Results, Root, ModPower, Holds, Converted, Rearranged, AllShown;
  }

  lemma {:induction false} TurnKeepsDrops(s: State, p: string, i: nat, extended: bool, fuel: nat)
    requires i < |p|
    ensures s.dropped ==> Turn(s, p, i, extended, fuel).state.dropped
    decreases fuel, |p| - i, 1
  {
    hide Macro, Conditional, Step, Literal, NumeralEnd, CommentEnd, RegName, RegEnd, DcText.Parse;
    var ch := p[i];
    StepKeepsInput(ch, s);
    if ch == 'x' && s.stack != [] && Top(s.stack).Str? {
      MacroKeepsDrops(s.(stack := Popped(s.stack)), Top(s.stack).text, extended, fuel);
    } else if ch == '?' && s.input != [] {
      MacroKeepsDrops(s.(input := s.input[1..]), s.input[0], extended, fuel);
    } else if IsTest(ch) {
      ConditionalKeepsDrops(ch, false, s, p, i + 1, extended, fuel);
    } else if ch == '!' && i + 1 < |p| && IsTest(p[i + 1]) {
      ConditionalKeepsDrops(p[i + 1], true, s, p, i + 2, extended, fuel);
    }
  }

  lemma {:induction false} ConditionalKeepsDrops(op: char, negated: bool, s: State, p: string, j: nat, extended: bool, fuel: nat)
    requires j <= |p|
    ensures s.dropped ==> Conditional(op, negated, s, p, j, extended, fuel).state.dropped
    decreases fuel, 0, 2
  {
    hide CallRegister, Holds, RegName, RegEnd;
    var reg, k := RegName(p, j, extended), RegEnd(p, j, extended);
    if reg != "" && |s.stack| >= 2 {
      var popped := s.(stack := Popped(Popped(s.stack)));
      CallKeepsDrops(popped, reg, extended, fuel);
      if k < |p| {
        CallKeepsDrops(popped, RegName(p, k + 1, extended), extended, fuel);
      }
    }
  }

  lemma {:induction false} CallKeepsDrops(s: State, reg: string, extended: bool, fuel: nat)
    ensures s.dropped ==> CallRegister(s, reg, extended, fuel).0.dropped
    decreases fuel, 0, 1
  {
    hide Macro;
    var vals := Register(s, reg);
    if vals != [] && Top(vals).Str? {
      MacroKeepsDrops(s, Top(vals).text, extended, fuel);
    }
  }

  // ---- Where counts are lost ----

  /** A comparison or a modular power without enough operands, one of them not whole. */
  predicate LosesCount(ch: char, s: State) {
    || (Compares(ch) && |s.stack| == 1 && !Whole(AsNumber(s.stack[0]).rat))
    || (ch == '|' && |s.stack| < 3 && exists i | 0 <= i < |s.stack| :: !Whole(AsNumber(s.stack[i]).rat))
  }

  lemma {:induction false} UntaggedTruthfulWhen(vs: seq<Value>)
    ensures |AllUntagged(vs)| == |vs|
    ensures AllTruthful(AllUntagged(vs)) <==> forall i | 0 <= i < |vs| :: Whole(AsNumber(vs[i]).rat)
  {
    hide Truthful, Whole;
    if vs != [] {
      var front := Popped(vs);
      UntaggedTruthfulWhen(front);
      UntaggedIsTruthful(AsNumber(Top(vs)));
      var all, n := AllUntagged(vs), |front|;
      assert all[..n] == AllUntagged(front) && all[n] == Untagged(AsNumber(Top(vs)));
      assert forall i | 0 <= i < n :: all[i] == AllUntagged(front)[i] && vs[i] == front[i];
      assert AllTruthful(all) <==> AllTruthful(AllUntagged(front)) && Truthful(all[n]);
    }
  }

  /** Whether it succeeds or fails, a command keeps every digit count true exactly when it is not one of those. */
  lemma StepKeepsTruthWhen(ch: char, s: State)
    requires Good(s)
    ensures Good(Step(ch, s).0) <==> !LosesCount(ch, s)
  {
    hide Truthful, Whole, AllTruthful, Results, Root, ModPower, Holds, Converted, Rearranged, AllShown, Int;
    StepKeepsRegisters(ch, s);
    if Step(ch, s).1.Done? {
      StepKeepsTruth(ch, s);
    } else if Compares(ch) && |s.stack| == 1 {
      UntaggedIsTruthful(AsNumber(s.stack[0]));
      SingleTruthful(Untagged(AsNumber(s.stack[0])));
    } else if ch == '|' {
      UntaggedTruthfulWhen(s.stack);
    } else if s.stack != [] {
      TopTruthful(s.stack);
      OneTruthful(AsNumber(Top(s.stack)));
      if |s.stack| >= 2 {
        TopTruthful(Popped(s.stack));
      }
    }
  }

  /** A test without two operands fails, and keeps every digit count true exactly when a lone operand is whole. */
  lemma TestKeepsTruthWhen(op: char, negated: bool, s: State, p: string, j: nat, extended: bool, fuel: nat)
    requires j <= |p| && Good(s) && |s.stack| < 2 && RegName(p, j, extended) != ""
    ensures var t := Conditional(op, negated, s, p, j, extended, fuel);
      t.outcome.Failed? && (Good(t.state) <==> s.stack == [] || Whole(AsNumber(s.stack[0]).rat))
  {
    hide Truthful, Whole, AllTruthful, RegName;
    if s.stack != [] {
      UntaggedIsTruthful(AsNumber(s.stack[0]));
      SingleTruthful(Untagged(AsNumber(s.stack[0])));
    }
  }

  lemma SingleTruthful(v: Value)
    ensures AllTruthful([v]) <==> Truthful(v)
  {
    assert [v][0] == v;
  }

  /** A comparison with one operand fails and puts it back without its digit count. */
  lemma ComparisonLosesCount(s: State)
    requires s.stack == [Num(1.5, 1, false)]
    ensures CompareStep('(', s) == (s.(stack := [Num(1.5, 0, false)]), Failed)
    ensures Truthful(Num(1.5, 1, false)) && !Truthful(Num(1.5, 0, false))
  {
    assert P10(1) == 10.0 && Scaled(1.5, 1) == 15.0;
    WholeOf(15);
    UntaggedIsTruthful(Num(1.5, 1, false));
  }

  /** `?` passes over that failure: the run of a program that reads such a line ends without an error, and a number
      shows fewer digits than it has. */
  lemma InputLineLosesCount(fuel: nat)
    ensures var s := State([Num(1.5, 1, false)], map[], 0, [], ["("], false);
      Good(s) && Run(s, "?", 0, false, fuel + 1) == (State([Num(1.5, 0, false)], map[], 0, [], [], true), Done)
    ensures !Good(State([Num(1.5, 0, false)], map[], 0, [], [], true))
  {
    var s := State([Num(1.5, 1, false)], map[], 0, [], ["("], false);
    var end := State([Num(1.5, 0, false)], map[], 0, [], [], true);
    ComparisonLosesCount(s);
    QueryFails(s, end, fuel);
    TurnQueries(s, "?", 0, false, fuel + 1);
    assert !Truthful(end.stack[0]);
    hide Turn, Query;
    assert Run(end, "?", 1, false, fuel + 1) == (end, Done);
  }

  lemma QueryFails(s: State, end: State, fuel: nat)
    requires s == State([Num(1.5, 1, false)], map[], 0, [], ["("], false)
    requires end == State([Num(1.5, 0, false)], map[], 0, [], [], true)
    ensures Query(s, false, fuel + 1) == (end, Done)
  {
    var rest := s.(input := []);
    assert s.input[1..] == [];
    ComparisonLosesCount(rest);
    StepCompares(rest);
    hide Step, CompareStep;
    assert Turn(rest, "(", 0, false, fuel) == Turned(CompareStep('(', rest).0, Failed, 1);
    assert Run(rest, "(", 0, false, fuel) == CompareStep('(', rest);
    hide Run;
    assert Macro(rest, "(", false, fuel + 1) == CompareStep('(', rest);
  }

  lemma TurnQueries(s: State, p: string, i: nat, extended: bool, fuel: nat)
    requires i < |p| && p[i] == '?'
    ensures var r := Query(s, extended, fuel); Turn(s, p, i, extended, fuel) == Turned(r.0, r.1, i + 1)
  {
    hide Execute, Query, Literal, NumeralEnd, Conditional, Step;
  }

  lemma StepCompares(s: State)
    ensures Step('(', s) == CompareStep('(', s)
  {
  }

  // ---- Division ----

  /** The command `~` keeps what lies below its operands and leaves quotient and remainder on top of it: they make up
      the dividend exactly, the remainder is small, and it is zero or has the dividend's sign. */
  lemma DivisionCommandLosesNothing(s: State)
    requires Good(s) && |s.stack| >= 2
    requires AsNumber(Top(s.stack)).rat != 0.0
    requires DigitsSuffice(AsNumber(Top(Popped(s.stack))).digits, AsNumber(Top(s.stack)).digits, s.scale)
    ensures Step('~', s).1.Done?
    ensures var a, b := AsNumber(Top(Popped(s.stack))), AsNumber(Top(s.stack));
      var t, n := Step('~', s).0.stack, |s.stack| - 2;
      && |t| == n + 2 && t[..n] == s.stack[..n] && t[n].Num? && t[n + 1].Num?
      && Times(t[n].rat, b.rat) + t[n + 1].rat == a.rat
      && Scaled(Abs(t[n + 1].rat), s.scale) < Abs(b.rat)
      && (t[n + 1].rat == 0.0 || (t[n + 1].rat > 0.0 <==> a.rat > 0.0))
  {
    hide Truthful, Quotient, Remainder, Times, Scaled;
    TopTruthful(s.stack);
    TopTruthful(Popped(s.stack));
    var a, b := AsNumber(Top(Popped(s.stack))), AsNumber(Top(s.stack));
    DivisionLosesNothing(a, b, s.scale);
    var rest := Popped(Popped(s.stack));
    assert rest == s.stack[..|s.stack| - 2];
    assert Step('~', s).0.stack == rest + [Quotient(a, b, s.scale), Remainder(a, b, s.scale)];
  }

  lemma StringIsTruthful(text: string)
    ensures Truthful(Str(text))
  {
  }

  lemma NumeralIsTruthful(text: string)
    requires DcText.Parse(text).Read?
    ensures Truthful(Numeral(text))
  {
    DcText.ReadIsMultiple(text);
  }

  // ---- What is printed ----

  /** Whatever a run prints for a number reads back as that number. */
  lemma ShownReadsBack(v: Number)
    requires Truthful(v)
    ensures DcText.Parse(Shown(v)) == DcText.Read(v.rat, if v.rat == 0.0 || v.digits < 0 then 0 else v.digits)
  {
    DcText.PrintedReadsBack(v.rat, v.digits);
  }

  /** The text reads back as the number it was printed for. */
  ghost predicate StandsFor(text: string, v: Value) {
    v.Num? ==> DcText.Parse(text) == DcText.Read(v.rat, if v.rat == 0.0 || v.digits < 0 then 0 else v.digits)
  }

  lemma {:induction false} AllShownReadBack(stack: seq<Value>)
    requires AllTruthful(stack)
    ensures |AllShown(stack)| == |stack|
    ensures forall j | 0 <= j < |stack| :: StandsFor(AllShown(stack)[j], stack[|stack| - 1 - j])
  {
    hide StandsFor, Shown, AllTruthful;
    if stack != [] {
      TopTruthful(stack);
      AllShownReadBack(Popped(stack));
      TopReadsBack(Top(stack));
      var rest := AllShown(Popped(stack));
      forall j | 0 <= j < |stack|
        ensures StandsFor(AllShown(stack)[j], stack[|stack| - 1 - j])
      {
        assert j > 0 ==> AllShown(stack)[j] == rest[j - 1] && stack[|stack| - 1 - j] == Popped(stack)[|stack| - 2 - (j - 1)];
      }
    }
  }

  lemma TopReadsBack(v: Value)
    requires Truthful(v)
    ensures StandsFor(Shown(v), v)
  {
    if v.Num? {
      ShownReadsBack(v);
    }
  }

  /** In every state with true digit counts, what `p` and `f` print for numbers reads back as those numbers,
      and the output printed before stays in front. */
  lemma PrintedReadsBack(s: State)
    requires Good(s)
    ensures s.stack != [] ==> var o := Step('p', s).0.output;
      |o| == |s.output| + 1 && o[..|s.output|] == s.output && StandsFor(o[|s.output|], Top(s.stack))
    ensures var o, n := Step('f', s).0.output, |s.stack|;
      && |o| == |s.output| + n && o[..|s.output|] == s.output
      && var printed := o[|s.output|..]; forall j | 0 <= j < n :: StandsFor(printed[j], s.stack[n - 1 - j])
  {
    AllShownReadBack(s.stack);
    if s.stack != [] {
      TopTruthful(s.stack);
      TopReadsBack(Top(s.stack));
    }
    hide StandsFor, Shown, AllShown, AllTruthful;
    assert Step('f', s).0.output == s.output + AllShown(s.stack);
    assert (s.output + AllShown(s.stack))[|s.output|..] == AllShown(s.stack);
    if s.stack != [] {
      assert Step('p', s).0.output == s.output + [Shown(Top(s.stack))];
    }
  }

  lemma LongerExtends(a: seq<string>, b: seq<string>)
    ensures Extends(a, a + b)
  {
  }

  lemma AppendedExtends(a: seq<string>, text: string)
    ensures Extends(a, Appended(a, text))
  {
  }

  lemma StepExtends(ch: char, s: State)
    ensures Extends(s.output, Step(ch, s).0.output)
  {
    hide Results, Root, ModPower, Holds, Converted, Rearranged, AllShown, Extends, Appended, Shown, Unescaped;
    LongerExtends(s.output, []);
    assert s.output + [] == s.output;
    LongerExtends(s.output, AllShown(s.stack));
    if s.stack != [] {
      var v := Top(s.stack);
      LongerExtends(s.output, [Shown(v)]);
      AppendedExtends(s.output, Shown(v));
      if v.Str? {
        AppendedExtends(s.output, Unescaped(v.text));
      }
    }
  }

  lemma SameExtends(a: seq<string>)
    ensures Extends(a, a)
  {
  }

  /** A run never takes back what was printed, not even when it fails. */
  lemma {:induction false} RunExtends(s: State, p: string, i: nat, extended: bool, fuel: nat)
    requires i <= |p|
    ensures Extends(s.output, Run(s, p, i, extended, fuel).0.output)
    decreases fuel, |p| - i, 2
  {
    hide Extends, Turn;
    SameExtends(s.output);
    if i < |p| {
      TurnExtends(s, p, i, extended, fuel);
      var t := Turn(s, p, i, extended, fuel);
      if t.outcome.Done? {
        RunExtends(t.state, p, t.next, extended, fuel);
        ExtendsTransitive(s.output, t.state.output, Run(t.state, p, t.next, extended, fuel).0.output);
      }
    }
  }

  lemma {:induction false} MacroExtends(s: State, text: string, extended: bool, fuel: nat)
    ensures Extends(s.output, Macro(s, text, extended, fuel).0.output)
    decreases fuel, 0, 0
  {
    hide Extends, Run;
    SameExtends(s.output);
    if fuel > 0 {
      RunExtends(s, text, 0, extended, fuel - 1);
    }
  }

  lemma {:induction false} CallExtends(s: State, reg: string, extended: bool, fuel: nat)
    ensures Extends(s.output, CallRegister(s, reg, extended, fuel).0.output)
    decreases fuel, 0, 1
  {
    hide Extends, Macro;
    SameExtends(s.output);
    var vals := Register(s, reg);
    if vals != [] && Top(vals).Str? {
      MacroExtends(s, Top(vals).text, extended, fuel);
    }
  }

  lemma {:induction false} TurnExtends(s: State, p: string, i: nat, extended: bool, fuel: nat)
    requires i < |p|
    ensures Extends(s.output, Turn(s, p, i, extended, fuel).state.output)
    decreases fuel, |p| - i, 1
  {
    hide Extends, Macro, Conditional, Step, Literal, NumeralEnd, CommentEnd, RegName, RegEnd, DcText.Parse;
    var ch := p[i];
    SameExtends(s.output);
    StepExtends(ch, s);
    if ch == 'x' {
      if s.stack != [] && Top(s.stack).Str? {
        MacroExtends(s.(stack := Popped(s.stack)), Top(s.stack).text, extended, fuel);
      }
    } else if ch == '?' {
      if s.input != [] {
        MacroExtends(s.(input := s.input[1..]), s.input[0], extended, fuel);
      }
    } else if IsTest(ch) {
      ConditionalExtends(ch, false, s, p, i + 1, extended, fuel);
    } else if ch == '!' && i + 1 < |p| && IsTest(p[i + 1]) {
      ConditionalExtends(p[i + 1], true, s, p, i + 2, extended, fuel);
    }
  }

  lemma {:induction false} ConditionalExtends(op: char, negated: bool, s: State, p: string, j: nat, extended: bool, fuel: nat)
    requires j <= |p|
    ensures Extends(s.output, Conditional(op, negated, s, p, j, extended, fuel).state.output)
    decreases fuel, 0, 2
  {
    hide Extends, CallRegister, Holds, RegName, RegEnd;
    SameExtends(s.output);
    var reg, k := RegName(p, j, extended), RegEnd(p, j, extended);
    if reg != "" && |s.stack| >= 2 {
      var popped := s.(stack := Popped(Popped(s.stack)));
      CallExtends(popped, reg, extended, fuel);
      if k < |p| {
        CallExtends(popped, RegName(p, k + 1, extended), extended, fuel);
      }
    }
  }

  // ---- Registers ----

  /** Pushing the top onto a register and popping it back changes nothing but the mark of a negative zero. */
  lemma RegisterStackRestores(reg: string, s: State)
    requires reg != "" && s.stack != []
    ensures var t := RegisterStep('L', reg, RegisterStep('S', reg, s));
      && t.stack == Popped(s.stack) + [Copied(Top(s.stack))]
      && (forall r :: Register(t, r) == Register(s, r))
      && t.scale == s.scale && t.output == s.output && t.input == s.input && t.dropped == s.dropped
  {
    var u := RegisterStep('S', reg, s);
    var vals := Register(s, reg);
    assert Register(u, reg) == vals + [Copied(Top(s.stack))];
    assert Popped(vals + [Copied(Top(s.stack))]) == vals;
  }

  // ---- Macros ----

  lemma ExecutesTop(s: State, text: string, extended: bool, fuel: nat)
    ensures Execute(Pushed(s, Str(text)), extended, fuel + 1) == Run(s, text, 0, extended, fuel)
  {
    hide Run;
    var quoted := Pushed(s, Str(text));
    assert Popped(quoted.stack) == s.stack;
    assert quoted.(stack := Popped(quoted.stack)) == s;
    assert Top(quoted.stack) == Str(text);
  }

  lemma TurnExecutes(s: State, p: string, i: nat, extended: bool, fuel: nat)
    requires i < |p| && p[i] == 'x'
    ensures var r := Execute(s, extended, fuel); Turn(s, p, i, extended, fuel) == Turned(r.0, r.1, i + 1)
  {
    hide Execute, Query, Literal, NumeralEnd, Conditional, Step;
  }

  lemma TurnQuotes(s: State, p: string, i: nat, extended: bool, fuel: nat)
    requires i < |p| && p[i] == '['
    ensures var l := Literal(p[i + 1..], 1);
      Turn(s, p, i, extended, fuel) == Turned(Pushed(s, Str(l.0)), Done, i + 1 + l.1)
  {
    hide Execute, Query, Literal, NumeralEnd, Conditional, Step;
  }

  /** Quoting a text with matching brackets and executing it is the same as running it in place. */
  lemma QuotedMacroRunsInPlace(s: State, text: string, extended: bool, fuel: nat)
    requires Level(text, 1) == 1
    ensures Run(s, "[" + text + "]x", 0, extended, fuel + 1) == Run(s, text, 0, extended, fuel)
  {
    hide Turn, Literal, Level, Execute;
    var p := "[" + text + "]x";
    var n := |text| + 2;
    assert p[1..] == text + "]" + "x";
    QuotedTextReadsBack(text, 1, "x");
    TurnQuotes(s, p, 0, extended, fuel + 1);
    var quoted := Pushed(s, Str(text));
    assert Run(s, p, 0, extended, fuel + 1) == Run(quoted, p, n, extended, fuel + 1);
    TurnExecutes(quoted, p, n, extended, fuel + 1);
    ExecutesTop(s, text, extended, fuel);
    var r := Run(s, text, 0, extended, fuel);
    assert Run(r.0, p, n + 1, extended, fuel + 1) == (r.0, Done);
  }

  // ---- Fuel ----

  /** A run that ends within its fuel ends the same way with more. */
  lemma {:induction false} MoreFuel(s: State, p: string, i: nat, extended: bool, fuel: nat, more: nat)
    requires i <= |p| && fuel <= more && !Run(s, p, i, extended, fuel).1.OutOfFuel?
    ensures Run(s, p, i, extended, more) == Run(s, p, i, extended, fuel)
    decreases fuel, |p| - i, 2
  {
    hide Turn;
    if i < |p| {
      TurnMoreFuel(s, p, i, extended, fuel, more);
      var t := Turn(s, p, i, extended, fuel);
      if t.outcome.Done? {
        MoreFuel(t.state, p, t.next, extended, fuel, more);
      }
    }
  }

  lemma {:induction false} MacroMoreFuel(s: State, text: string, extended: bool, fuel: nat, more: nat)
    requires fuel <= more && !Macro(s, text, extended, fuel).1.OutOfFuel?
    ensures Macro(s, text, extended, more) == Macro(s, text, extended, fuel)
    decreases fuel, 0, 0
  {
    hide Run;
    MoreFuel(s, text, 0, extended, fuel - 1, more - 1);
  }

  lemma {:induction false} CallMoreFuel(s: State, reg: string, extended: bool, fuel: nat, more: nat)
    requires fuel <= more && !CallRegister(s, reg, extended, fuel).1.OutOfFuel?
    ensures CallRegister(s, reg, extended, more) == CallRegister(s, reg, extended, fuel)
    decreases fuel, 0, 1
  {
    hide Macro;
    var vals := Register(s, reg);
    if vals != [] && Top(vals).Str? {
      MacroMoreFuel(s, Top(vals).text, extended, fuel, more);
    }
  }

  lemma {:induction false} ConditionalMoreFuel(op: char, negated: bool, s: State, p: string, j: nat, extended: bool, fuel: nat, more: nat)
    requires j <= |p| && fuel <= more && !Conditional(op, negated, s, p, j, extended, fuel).outcome.OutOfFuel?
    ensures Conditional(op, negated, s, p, j, extended, more) == Conditional(op, negated, s, p, j, extended, fuel)
    decreases fuel, 0, 2
  {
    hide CallRegister, Holds, RegName, RegEnd;
    var reg, k := RegName(p, j, extended), RegEnd(p, j, extended);
    if reg != "" && |s.stack| >= 2 {
      var b, below := AsNumber(Top(s.stack)), Popped(s.stack);
      var a, popped := AsNumber(Top(below)), s.(stack := Popped(below));
      if Holds(op, a.rat, b.rat) != negated {
        CallMoreFuel(popped, reg, extended, fuel, more);
      } else if k < |p| && p[k] == 'e' {
        var other := RegName(p, k + 1, extended);
        if other != "" {
          CallMoreFuel(popped, other, extended, fuel, more);
        }
      }
    }
  }

  lemma {:induction false} TurnMoreFuel(s: State, p: string, i: nat, extended: bool, fuel: nat, more: nat)
    requires i < |p| && fuel <= more && !Turn(s, p, i, extended, fuel).outcome.OutOfFuel?
    ensures Turn(s, p, i, extended, more) == Turn(s, p, i, extended, fuel)
    decreases fuel, |p| - i, 1
  {
    hide Macro, Conditional, Step, Literal, NumeralEnd, CommentEnd, RegName, RegEnd, RegisterStep, DcText.Parse;
    var ch := p[i];
    if ch == 'x' {
      if s.stack != [] && Top(s.stack).Str? {
        MacroMoreFuel(s.(stack := Popped(s.stack)), Top(s.stack).text, extended, fuel, more);
      }
    } else if ch == '?' {
      if s.input != [] && s.input[0] != "" {
        MacroMoreFuel(s.(input := s.input[1..]), s.input[0], extended, fuel, more);
      }
    } else if IsTest(ch) {
      ConditionalMoreFuel(ch, false, s, p, i + 1, extended, fuel, more);
    } else if ch == '!' && i + 1 < |p| && IsTest(p[i + 1]) {
      ConditionalMoreFuel(p[i + 1], true, s, p, i + 2, extended, fuel, more);
    }
  }
}
