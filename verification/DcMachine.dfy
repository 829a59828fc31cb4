/** The dc interpreter as it runs: its state changes in place, command by command. */
module DcMachine {
  import opened Decimal
  import opened DcValues
  import opened DcLexer
  import opened DcSemantics
  import DcRuns
  import DcText

  method Show(v: Value) returns (text: string)
    ensures text == Shown(v)
  {
    if v.Str? {
      return v.text;
    }
    text := DcText.FormatRat(v.rat, v.digits);
  }

  method Raise(a: Number, b: Number, scale: nat) returns (v: Number)
    ensures v == Power(a, b, scale)
  {
    hide Truncate, RealPow, IsNegative;
    var exp := ToInt(b.rat);
    var odd := exp % 2 != 0;
    if exp == 0 {
      return Int(1);
    }
    if a.rat == 0.0 {
      return Signed(0.0, 0, IsNegative(a) && odd);
    }
    if exp < 0 {
      var p := PowInt(a.rat, Wrap64(-exp));
      PowNotZero(a.rat, Wrap64(-exp));
      return Signed(Truncate(1.0 / p, scale), scale, IsNegative(a) && odd);
    }
    var p := PowInt(a.rat, exp);
    var fd := Wrap64(exp * a.digits);
    var maxScale := Max(scale, a.digits);
    if fd > maxScale {
      fd := maxScale;
    }
    return Signed(Truncate(p, fd), fd, IsNegative(a) && odd);
  }

  class Machine {
    var stack: seq<Value>
    var regs: map<string, seq<Value>>
    var scale: nat
    var output: seq<string>
    var input: seq<string>
    ghost var dropped: bool
    const extended: bool

    constructor (extended: bool, input: seq<string>)
      ensures this.extended == extended && Snapshot() == State([], map[], 0, [], input, false)
      ensures Good(Snapshot())
    {
      this.extended := extended;
      stack, regs, scale, output := [], map[], 0, [];
      this.input, dropped := input, false;
    }

    ghost function Snapshot(): State
      reads this
    {
      State(stack, regs, scale, output, input, dropped)
    }

    method Pop() returns (v: Value, ok: bool)
      modifies `stack
      ensures ok == (old(stack) != [])
      ensures ok ==> v == Top(old(stack)) && stack == Popped(old(stack))
      ensures !ok ==> stack == old(stack)
    {
      if |stack| == 0 {
        return Int(0), false;
      }
      v, ok := stack[|stack| - 1], true;
      stack := stack[..|stack| - 1];
    }

    /** The two topmost values as numbers; a lone one goes back, with or without its digit count. */
    method PopTwo(tagged: bool) returns (a: Number, b: Number, ok: bool)
      modifies `stack
      ensures ok == (|old(stack)| >= 2)
      ensures ok ==> b == AsNumber(Top(old(stack))) && a == AsNumber(Top(Popped(old(stack))))
      ensures ok ==> stack == Popped(Popped(old(stack)))
      ensures !ok ==> stack == if tagged then PutBack(old(stack)) else PutBackUntagged(old(stack))
    {
      a, b := Int(0), Int(0);
      var v: Value;
      v, ok := Pop();
      if !ok {
        return;
      }
      b := AsNumber(v);
      v, ok := Pop();
      if !ok {
        stack := stack + [if tagged then b else Untagged(b)];
        return;
      }
      a := AsNumber(v);
    }

    method Arithmetic(op: char) returns (o: Outcome)
      requires IsBinary(op)
      modifies `stack
      ensures (Snapshot(), o) == BinaryStep(op, old(Snapshot()))
    {
      hide Sum, Difference, Product, Quotient, Remainder, Power, AsNumber;
      var a, b, ok := PopTwo(true);
      if !ok {
        return Failed;
      }
      if (op == '/' || op == '%' || op == '~') && b.rat == 0.0 {
        return Failed;
      }
      o := Done;
      match op
      case '+' => stack := stack + [Sum(a, b)];
      case '-' => stack := stack + [Difference(a, b)];
      case '*' => stack := stack + [Product(a, b, scale)];
      case '/' => stack := stack + [Quotient(a, b, scale)];
      case '%' => stack := stack + [Remainder(a, b, scale)];
      case '~' =>
        ghost var rest := stack;
        stack := stack + [Quotient(a, b, scale)];
        stack := stack + [Remainder(a, b, scale)];
        assert stack == rest + [Quotient(a, b, scale), Remainder(a, b, scale)];
      case _ =>
        var p := Raise(a, b, scale);
        stack := stack + [p];
    }

    method SquareRoot() returns (o: Outcome)
      modifies `stack
      ensures (Snapshot(), o) == RootStep(old(Snapshot()))
    {
      hide Root;
      var v, ok := Pop();
      if !ok {
        return Failed;
      }
      var a := AsNumber(v);
      if a.rat < 0.0 {
        return Failed;
      }
      stack := stack + [Root(a, scale)];
      return Done;
    }

    method ModularPower() returns (o: Outcome)
      modifies `stack
      ensures (Snapshot(), o) == ModPowerStep(old(Snapshot()))
    {
      hide ModPower;
      ghost var was := stack;
      var mod, ok := Pop();
      if !ok {
        return Failed;
      }
      var exp, base: Value;
      exp, ok := Pop();
      if !ok {
        stack := stack + [Untagged(AsNumber(mod))];
        assert was == [mod];
        assert AllUntagged(was) == AllUntagged([]) + [Untagged(AsNumber(mod))];
        return Failed;
      }
      base, ok := Pop();
      if !ok {
        stack := stack + [Untagged(AsNumber(exp))];
        stack := stack + [Untagged(AsNumber(mod))];
        assert was == [exp, mod] && Popped(was) == [exp];
        assert AllUntagged(Popped(was)) == AllUntagged([]) + [Untagged(AsNumber(exp))];
        return Failed;
      }
      ghost var n := |was| - 3;
      assert stack == was[..n] && base == was[n] && exp == was[n + 1] && mod == was[n + 2];
      var r := ModPower(AsNumber(base).rat, AsNumber(exp).rat, AsNumber(mod).rat);
      if r.None? {
        stack := stack + [base, exp, mod];
        assert stack == was;
        return NotModelled;
      }
      stack := stack + [Int(r.value)];
      return Done;
    }

    method Compare(op: char) returns (o: Outcome)
      modifies `stack
      ensures (Snapshot(), o) == CompareStep(op, old(Snapshot()))
    {
      hide Holds, AsNumber;
      var a, b, ok := PopTwo(false);
      if !ok {
        return Failed;
      }
      stack := stack + [Int(if Holds(op, a.rat, b.rat) then 1 else 0)];
      return Done;
    }

    method Convert(op: char) returns (o: Outcome)
      requires Converts(op)
      modifies `stack
      ensures (Snapshot(), o) == ConvertStep(op, old(Snapshot()))
    {
      hide Length, Character;
      var v, ok := Pop();
      if !ok {
        return if op == 'Z' then Done else Failed;
      }
      o := Done;
      match op
      case 'Z' => stack := stack + [Int(Length(v, scale))];
      case 'N' =>
        var r := 0;
        if v.Str? && v.text == "" {
          r := 1;
        } else if v.Num? && v.rat == 0.0 {
          r := 1;
        }
        stack := stack + [Int(r)];
      case _ => stack := stack + [Str(Character(v))];
    }

    method Rearrange(op: char)
      requires Rearranges(op)
      modifies `stack
      ensures stack == Rearranged(op, old(Snapshot()))
    {
      var n := |stack|;
      match op
      case 'c' => stack := [];
      case 'd' =>
        if n > 0 {
          stack := stack + [Copied(stack[n - 1])];
        }
      case 'r' =>
        if n >= 2 {
          ghost var was := stack;
          stack := stack[n - 1 := stack[n - 2]][n - 2 := stack[n - 1]];
          assert stack == was[..n - 2] + [was[n - 1], was[n - 2]];
        }
      case 'R' =>
        var _, _ := Pop();
      case 'z' => stack := stack + [Int(n)];
      case _ => stack := stack + [Num(scale as real, scale, false)];
    }

    method SetScale() returns (o: Outcome)
      modifies `stack, `scale
      ensures (Snapshot(), o) == ScaleStep(old(Snapshot()))
    {
      hide ToInt;
      var v, ok := Pop();
      if !ok {
        return Failed;
      }
      var s := ToInt(AsNumber(v).rat);
      if s < 0 {
        s := 0;
      }
      scale := s;
      return Done;
    }

    method Append(text: string)
      modifies `output
      ensures output == Appended(old(output), text)
    {
      if |output| > 0 {
        output := output[|output| - 1 := output[|output| - 1] + text];
      } else {
        output := output + [text];
      }
    }

    /** `f` walks the stack from the top down. */
    method PrintAll()
      modifies `output
      ensures output == old(output) + AllShown(stack)
    {
      hide Shown;
      var j := |stack|;
      assert stack[..j] == stack;
      while j > 0
        invariant 0 <= j <= |stack|
        invariant output + AllShown(stack[..j]) == old(output) + AllShown(stack)
      {
        ghost var here := stack[..j];
        assert Top(here) == stack[j - 1] && Popped(here) == stack[..j - 1];
        var text := Show(stack[j - 1]);
        assert output + ([text] + AllShown(Popped(here))) == (output + [text]) + AllShown(Popped(here));
        output := output + [text];
        j := j - 1;
      }
      assert output + [] == output;
    }

    method Print(op: char)
      requires Prints(op)
      modifies `stack, `output
      ensures Snapshot() == PrintStep(op, old(Snapshot()))
    {
      hide Shown, AllShown, Unescaped, Appended;
      match op
      case 'f' => PrintAll();
      case 'p' =>
        if |stack| > 0 {
          var text := Show(stack[|stack| - 1]);
          output := output + [text];
        }
      case 'n' =>
        var v, ok := Pop();
        if ok {
          var text := Show(v);
          Append(text);
        }
      case _ =>
        var v, ok := Pop();
        if ok && v.Str? {
          Append(Unescaped(v.text));
        }
    }

    method Command(ch: char) returns (o: Outcome)
      modifies this
      ensures (Snapshot(), o) == Step(ch, old(Snapshot()))
    {
      hide BinaryStep, RootStep, ModPowerStep, CompareStep, ConvertStep, Rearranged, ScaleStep, PrintStep;
      o := Done;
      match ch
      case '+' | '-' | '*' | '/' | '%' | '~' | '^' => o := Arithmetic(ch);
      case 'v' => o := SquareRoot();
      case '|' => o := ModularPower();
      case '(' | '{' | 'G' => o := Compare(ch);
      case 'Z' | 'N' | 'a' => o := Convert(ch);
      case 'c' | 'd' | 'r' | 'R' | 'z' | 'K' => Rearrange(ch);
      case 'k' => o := SetScale();
      case 'p' | 'n' | 'P' | 'f' => Print(ch);
      case _ =>
    }

    method UseRegister(op: char, reg: string)
      requires UsesRegister(op)
      modifies this
      ensures Snapshot() == RegisterStep(op, reg, old(Snapshot()))
    {
      if reg == "" {
        return;
      }
      match op
      case 's' =>
        var v, ok := Pop();
        if ok {
          regs := regs[reg := [Copied(v)]];
        } else {
          regs := regs[reg := [Str("")]];
        }
      case 'l' =>
        if reg in regs && |regs[reg]| > 0 {
          stack := stack + [Copied(regs[reg][|regs[reg]| - 1])];
        } else {
          stack := stack + [Int(0)];
        }
      case 'S' =>
        var v, ok := Pop();
        if ok {
          regs := regs[reg := (if reg in regs then regs[reg] else []) + [Copied(v)]];
        }
      case _ =>
        if reg in regs && |regs[reg]| > 0 {
          var vals := regs[reg];
          regs := regs[reg := vals[..|vals| - 1]];
          stack := stack + [Copied(vals[|vals| - 1])];
        }
    }

    method Call(reg: string, fuel: nat) returns (o: Outcome)
      modifies this
      ensures (Snapshot(), o) == CallRegister(old(Snapshot()), reg, extended, fuel)
      decreases fuel, 0, 1
    {
      hide Run;
      o := Done;
      if reg in regs && |regs[reg]| > 0 {
        var v := regs[reg][|regs[reg]| - 1];
        if v.Str? {
          if fuel == 0 {
            return OutOfFuel;
          }
          o := Eval(v.text, fuel - 1);
        }
      }
    }

    method ExecuteTop(fuel: nat) returns (o: Outcome)
      modifies this
      ensures (Snapshot(), o) == Execute(old(Snapshot()), extended, fuel)
      decreases fuel, 0, 1
    {
      hide Run;
      o := Done;
      ghost var was := stack;
      var v, ok := Pop();
      if ok {
        if v.Str? {
          if fuel == 0 {
            return OutOfFuel;
          }
          o := Eval(v.text, fuel - 1);
        } else {
          stack := stack + [v];
          assert stack == was;
        }
      }
    }

    method ReadInput(fuel: nat) returns (o: Outcome)
      modifies this
      ensures (Snapshot(), o) == Query(old(Snapshot()), extended, fuel)
      decreases fuel, 0, 1
    {
      hide Run;
      o := Done;
      if |input| > 0 {
        var line := input[0];
        input := input[1..];
        if line != "" {
          if fuel == 0 {
            return OutOfFuel;
          }
          o := Eval(line, fuel - 1);
          if o.Failed? {
            dropped := true;
            o := Done;
          }
        }
      }
    }

    method Test(op: char, negated: bool, runes: string, j: nat, fuel: nat) returns (o: Outcome, next: nat)
      requires j <= |runes|
      modifies this
      ensures Turned(Snapshot(), o, next) == Conditional(op, negated, old(Snapshot()), runes, j, extended, fuel)
      decreases fuel, 0, 2
    {
      hide CallRegister, Holds, RegName, RegEnd, AsNumber;
      o := Done;
      var reg: string;
      reg, next := ParseRegName(runes, j, extended);
      if reg != "" {
        var a, b, ok := PopTwo(false);
        if !ok {
          return Failed, next;
        }
        var execute := Holds(op, a.rat, b.rat);
        if negated {
          execute := !execute;
        }
        if execute {
          o := Call(reg, fuel);
        } else if next < |runes| && runes[next] == 'e' {
          var other: string;
          other, next := ParseRegName(runes, next + 1, extended);
          if other != "" {
            o := Call(other, fuel);
          }
        }
      }
    }

    /** The evaluation loop runs a program as `Run` says, macros nesting at most `fuel` deep. A program that ends
        without an error leaves every digit count true, and none takes back output. */
    method Eval(program: string, fuel: nat) returns (o: Outcome)
      modifies this
      ensures (Snapshot(), o) == Run(old(Snapshot()), program, 0, extended, fuel)
      ensures old(Good(Snapshot())) && o.Done? && !dropped ==> Good(Snapshot())
      ensures Extends(old(output), output)
      decreases fuel, 1, 0
    {
      hide Turn, Good, Extends;
      DcRuns.RunExtends(Snapshot(), program, 0, extended, fuel);
      ghost var r := Run(Snapshot(), program, 0, extended, fuel);
      if Good(Snapshot()) && r.1.Done? && !r.0.dropped {
        DcRuns.RunKeepsTruth(Snapshot(), program, 0, extended, fuel);
      }
      var i := 0;
      while i < |program|
        invariant 0 <= i <= |program|
        invariant Run(Snapshot(), program, i, extended, fuel) == Run(old(Snapshot()), program, 0, extended, fuel)
        decreases |program| - i
      {
        o, i := OneTurn(program, i, fuel);
        if !o.Done? {
          return;
        }
      }
      o := Done;
    }

    method OneTurn(runes: string, start: nat, fuel: nat) returns (o: Outcome, i: nat)
      requires start < |runes|
      modifies this
      ensures Turned(Snapshot(), o, i) == Turn(old(Snapshot()), runes, start, extended, fuel)
      decreases fuel, 0, 3
    {
      hide Execute, Query, Conditional, Step, RegisterStep, Literal, NumeralEnd, RegName, RegEnd, DcText.Parse;
      o, i := Done, start + 1;
      var ch := runes[start];
      if IsBlank(ch) {
        return;
      }
      if ch == '#' {
        while i < |runes| && runes[i] != '\n'
          invariant start < i <= |runes| && CommentEnd(runes, i) == CommentEnd(runes, start + 1)
          invariant Snapshot() == old(Snapshot())
        {
          i := i + 1;
        }
        return;
      }
      if ch == '[' {
        var text: string;
        text, i := ReadLiteral(runes, i);
        stack := stack + [Str(text)];
        return;
      }
      if IsDigit(ch) || ch == '_' || ch == '.' {
        var num, next := ParseNumber(runes, start);
        if num != "" {
          var r := DcText.NewNumStr(num);
          stack := stack + [Num(r.value, r.digits, false)];
          i := next;
        }
        return;
      }
      if UsesRegister(ch) {
        var reg: string;
        reg, i := ParseRegName(runes, i, extended);
        UseRegister(ch, reg);
        return;
      }
      match ch
      case 'x' => o := ExecuteTop(fuel);
      case '?' => o := ReadInput(fuel);
      case '<' | '>' | '=' => o, i := Test(ch, false, runes, i, fuel);
      case '!' =>
        if i < |runes| && IsTest(runes[i]) {
          o, i := Test(runes[i], true, runes, i + 1, fuel);
        }
      case _ => o := Command(ch);
    }
  }
}
