/** What a dc program means: one command, one turn of the evaluation loop, a whole run with its macros. */
module DcSemantics {
  import opened Decimal
  import opened DcValues
  import opened DcLexer
  import DcText

  /** The interpreter's variables; `input` are the complete lines left on standard input, and `dropped` records whether
      `?` has passed over an error in one of them. */
  datatype State = State(
    stack: seq<Value>,
    regs: map<string, seq<Value>>,
    scale: nat,
    output: seq<string>,
    input: seq<string>,
    dropped: bool)

  datatype Outcome = Done | Failed | OutOfFuel | NotModelled

  // ---- What every command keeps ----

  ghost predicate AllTruthful(vs: seq<Value>) { forall i | 0 <= i < |vs| :: Truthful(vs[i]) }

  /** Every number on the stack and in the registers has a true digit count. */
  ghost predicate Good(s: State) {
    AllTruthful(s.stack) && forall r | r in s.regs :: AllTruthful(s.regs[r])
  }

  /** Output is only ever added: whole lines, or text at the end of the last line. */
  ghost predicate Extends(before: seq<string>, after: seq<string>) {
    && |before| <= |after|
    && (forall i | 0 <= i < |before| - 1 :: after[i] == before[i])
    && (before != [] ==> before[|before| - 1] <= after[|before| - 1])
  }

  lemma ExtendsTransitive(a: seq<string>, b: seq<string>, c: seq<string>)
    requires Extends(a, b) && Extends(b, c)
    ensures Extends(a, c)
  {
    if a != [] {
      var n := |a| - 1;
      assert a[n] <= b[n];
      assert b[n] <= c[n];
    }
  }

  // ---- Operations on two numbers ----

  predicate IsBinary(op: char) { op == '+' || op == '-' || op == '*' || op == '/' || op == '%' || op == '~' || op == '^' }

  predicate Divides(op: char) { op == '/' || op == '%' || op == '~' }

  function Results(op: char, a: Number, b: Number, scale: nat): seq<Value>
    requires IsBinary(op) && (Divides(op) ==> b.rat != 0.0)
  {
    match op
    case '+' => [Sum(a, b)]
    case '-' => [Difference(a, b)]
    case '*' => [Product(a, b, scale)]
    case '/' => [Quotient(a, b, scale)]
    case '%' => [Remainder(a, b, scale)]
    case '~' => [Quotient(a, b, scale), Remainder(a, b, scale)]
    case _ => [Power(a, b, scale)]
  }

  lemma ResultsAreTruthful(op: char, a: Number, b: Number, scale: nat)
    requires IsBinary(op) && (Divides(op) ==> b.rat != 0.0) && Truthful(a) && Truthful(b)
    ensures AllTruthful(Results(op, a, b, scale))
  {
    hide Truthful, Power, Truncate, Signed;
    SumIsTruthful(a, b);
    PowerIsTruthful(a, b, scale);
    var fd := ProductDigits(a, b, scale);
    SignedIsTruthful(Times(a.rat, b.rat), fd, IsNegative(a) != IsNegative(b));
    if b.rat != 0.0 {
      SignedIsTruthful(a.rat / b.rat, scale, IsNegative(a) != IsNegative(b));
      var q, rd := Truncate(a.rat / b.rat, scale), RemainderDigits(a, b, scale);
      SignedIsTruthful(a.rat - Times(q, b.rat), rd, IsNegative(a));
    }
  }

  function Top(stack: seq<Value>): Value
    requires stack != []
  {
    stack[|stack| - 1]
  }

  function Popped(stack: seq<Value>): seq<Value>
    requires stack != []
  {
    stack[..|stack| - 1]
  }

  /** With a single operand the stack keeps it, as a number. */
  function PutBack(stack: seq<Value>): seq<Value>
    requires |stack| < 2
  {
    if stack == [] then [] else [AsNumber(Top(stack))]
  }

  /** The comparisons put it back without its digit count. */
  function PutBackUntagged(stack: seq<Value>): seq<Value>
    requires |stack| < 2
  {
    if stack == [] then [] else [Untagged(AsNumber(Top(stack)))]
  }

  function BinaryStep(op: char, s: State): (State, Outcome)
    requires IsBinary(op)
  {
    if |s.stack| < 2 then (s.(stack := PutBack(s.stack)), Failed)
    else
      var b, below := AsNumber(Top(s.stack)), Popped(s.stack);
      var a, rest := AsNumber(Top(below)), Popped(below);
      if Divides(op) && b.rat == 0.0 then (s.(stack := rest), Failed)
      else (s.(stack := rest + Results(op, a, b, s.scale)), Done)
  }

  function RootStep(s: State): (State, Outcome) {
    if s.stack == [] then (s, Failed)
    else
      var a, rest := AsNumber(Top(s.stack)), Popped(s.stack);
      if a.rat < 0.0 then (s.(stack := rest), Failed) else (s.(stack := rest + [Root(a, s.scale)]), Done)
  }

  function AllUntagged(vs: seq<Value>): seq<Value> {
    if vs == [] then [] else AllUntagged(Popped(vs)) + [Untagged(AsNumber(Top(vs)))]
  }

  function ModPowerStep(s: State): (State, Outcome) {
    if |s.stack| < 3 then (s.(stack := AllUntagged(s.stack)), Failed)
    else
      var n := |s.stack| - 3;
      var r := ModPower(AsNumber(s.stack[n]).rat, AsNumber(s.stack[n + 1]).rat, AsNumber(s.stack[n + 2]).rat);
      if r.None? then (s, NotModelled) else (s.(stack := s.stack[..n] + [Int(r.value)]), Done)
  }

  // ---- Comparisons ----

  predicate Compares(op: char) { op == '(' || op == '{' || op == 'G' }

  predicate Holds(op: char, a: real, b: real) {
    match op
    case '(' => a > b
    case '{' => a >= b
    case '>' => b > a
    case '<' => b < a
    case _ => a == b
  }

  function CompareStep(op: char, s: State): (State, Outcome) {
    if |s.stack| < 2 then (s.(stack := PutBackUntagged(s.stack)), Failed)
    else
      var b, below := AsNumber(Top(s.stack)), Popped(s.stack);
      (s.(stack := Popped(below) + [Int(if Holds(op, AsNumber(Top(below)).rat, b.rat) then 1 else 0)]), Done)
  }

  // ---- One value in, one value out ----

  predicate Converts(op: char) { op == 'Z' || op == 'N' || op == 'a' }

  predicate IsNothing(v: Value) { if v.Str? then v.text == "" else v.rat == 0.0 }

  function Converted(op: char, v: Value, scale: nat): Value {
    match op
    case 'Z' => Int(Length(v, scale))
    case 'N' => Int(if IsNothing(v) then 1 else 0)
    case _ => Str(Character(v))
  }

  /** `Z` ignores an empty stack, the other two fail on it. */
  function ConvertStep(op: char, s: State): (State, Outcome) {
    if s.stack == [] then (s, if op == 'Z' then Done else Failed)
    else (s.(stack := Popped(s.stack) + [Converted(op, Top(s.stack), s.scale)]), Done)
  }

  // ---- The stack, the scale, the output ----

  predicate Rearranges(op: char) { op == 'c' || op == 'd' || op == 'r' || op == 'R' || op == 'z' || op == 'K' }

  function Rearranged(op: char, s: State): seq<Value> {
    var n := |s.stack|;
    match op
    case 'c' => []
    case 'd' => if n == 0 then [] else s.stack + [Copied(s.stack[n - 1])]
    case 'r' => if n < 2 then s.stack else s.stack[..n - 2] + [s.stack[n - 1], s.stack[n - 2]]
    case 'R' => if n == 0 then [] else s.stack[..n - 1]
    case 'z' => s.stack + [Int(n)]
    case _ => s.stack + [Num(s.scale as real, s.scale, false)]
  }

  function ScaleStep(s: State): (State, Outcome) {
    if s.stack == [] then (s, Failed)
    else (s.(stack := Popped(s.stack), scale := Max(0, ToInt(AsNumber(Top(s.stack)).rat))), Done)
  }

  predicate Prints(op: char) { op == 'p' || op == 'n' || op == 'P' || op == 'f' }

  function Appended(output: seq<string>, text: string): seq<string> {
    if output == [] then [text] else output[|output| - 1 := output[|output| - 1] + text]
  }

  function AllShown(stack: seq<Value>): seq<string> {
    if stack == [] then [] else [Shown(Top(stack))] + AllShown(Popped(stack))
  }

  function PrintStep(op: char, s: State): State {
    if op == 'f' then s.(output := s.output + AllShown(s.stack))
    else if s.stack == [] then s
    else
      var v := Top(s.stack);
      match op
      case 'p' => s.(output := s.output + [Shown(v)])
      case 'n' => s.(stack := Popped(s.stack), output := Appended(s.output, Shown(v)))
      case _ => s.(stack := Popped(s.stack), output := if v.Str? then Appended(s.output, Unescaped(v.text)) else s.output)
  }

  /** One command that needs neither a register name nor an evaluation; other characters are ignored. */
  function Step(ch: char, s: State): (State, Outcome) {
    if IsBinary(ch) then BinaryStep(ch, s)
    else if ch == 'v' then RootStep(s)
    else if ch == '|' then ModPowerStep(s)
    else if Compares(ch) then CompareStep(ch, s)
    else if Converts(ch) then ConvertStep(ch, s)
    else if Rearranges(ch) then (s.(stack := Rearranged(ch, s)), Done)
    else if ch == 'k' then ScaleStep(s)
    else if Prints(ch) then (PrintStep(ch, s), Done)
    else (s, Done)
  }

  // ---- Registers ----

  predicate UsesRegister(op: char) { op == 's' || op == 'l' || op == 'S' || op == 'L' }

  function Register(s: State, reg: string): seq<Value> { if reg in s.regs then s.regs[reg] else [] }

  function RegisterStep(op: char, reg: string, s: State): State {
    var vals := Register(s, reg);
    if reg == "" then s
    else match op
      case 's' =>
        if s.stack == [] then s.(regs := s.regs[reg := [Str("")]])
        else s.(stack := Popped(s.stack), regs := s.regs[reg := [Copied(Top(s.stack))]])
      case 'l' => s.(stack := s.stack + [if vals == [] then Int(0) else Copied(Top(vals))])
      case 'S' =>
        if s.stack == [] then s
        else s.(stack := Popped(s.stack), regs := s.regs[reg := vals + [Copied(Top(s.stack))]])
      case _ =>
        if vals == [] then s
        else s.(stack := s.stack + [Copied(Top(vals))], regs := s.regs[reg := Popped(vals)])
  }

  // ---- Runs ----

  datatype Turned = Turned(state: State, outcome: Outcome, next: nat)

  predicate IsBlank(c: char) { c == ' ' || c == '\t' || c == '\n' || c == '\r' }

  predicate IsTest(c: char) { c == '<' || c == '>' || c == '=' }

  function Pushed(s: State, v: Value): State { s.(stack := s.stack + [v]) }

  function Numeral(text: string): Value
    requires DcText.Parse(text).Read?
  {
    Num(DcText.Parse(text).value, DcText.Parse(text).digits, false)
  }

  /** The whole input from position i on; macros nest at most `fuel` deep. */
  function Run(s: State, p: string, i: nat, extended: bool, fuel: nat): (State, Outcome)
    requires i <= |p|
    decreases fuel, |p| - i, 2
  {
    if i == |p| then (s, Done)
    else
      var t := Turn(s, p, i, extended, fuel);
      if t.outcome != Done then (t.state, t.outcome) else Run(t.state, p, t.next, extended, fuel)
  }

  function Macro(s: State, text: string, extended: bool, fuel: nat): (State, Outcome)
    decreases fuel, 0, 0
  {
    if fuel == 0 then (s, OutOfFuel) else Run(s, text, 0, extended, fuel - 1)
  }

  function CallRegister(s: State, reg: string, extended: bool, fuel: nat): (State, Outcome)
    decreases fuel, 0, 1
  {
    var vals := Register(s, reg);
    if vals != [] && Top(vals).Str? then Macro(s, Top(vals).text, extended, fuel) else (s, Done)
  }

  /** `x` executes a string and leaves a number where it is. */
  function Execute(s: State, extended: bool, fuel: nat): (State, Outcome)
    decreases fuel, 0, 1
  {
    if s.stack == [] || Top(s.stack).Num? then (s, Done)
    else Macro(s.(stack := Popped(s.stack)), Top(s.stack).text, extended, fuel)
  }

  /** `?` evaluates the next line of input and goes on even when that fails; without one it does nothing. */
  function Query(s: State, extended: bool, fuel: nat): (State, Outcome)
    decreases fuel, 0, 1
  {
    if s.input == [] then (s, Done)
    else
      var line, rest := s.input[0], s.(input := s.input[1..]);
      if line == "" then (rest, Done)
      else
        var r := Macro(rest, line, extended, fuel);
        if r.1.Failed? then (r.0.(dropped := true), Done) else r
  }

  /** A test with its register at position j, and the register of an else clause behind it. */
  function Conditional(op: char, negated: bool, s: State, p: string, j: nat, extended: bool, fuel: nat): (t: Turned)
    requires j <= |p|
    ensures j <= t.next <= |p|
    decreases fuel, 0, 2
  {
    var reg, k := RegName(p, j, extended), RegEnd(p, j, extended);
    if reg == "" then Turned(s, Done, k)
    else if |s.stack| < 2 then Turned(s.(stack := PutBackUntagged(s.stack)), Failed, k)
    else
      var b, below := AsNumber(Top(s.stack)), Popped(s.stack);
      var a, popped := AsNumber(Top(below)), s.(stack := Popped(below));
      if Holds(op, a.rat, b.rat) != negated then
        var r := CallRegister(popped, reg, extended, fuel);
        Turned(r.0, r.1, k)
      else if k < |p| && p[k] == 'e' then
        var other := RegName(p, k + 1, extended);
        var r := if other == "" then (popped, Done) else CallRegister(popped, other, extended, fuel);
        Turned(r.0, r.1, RegEnd(p, k + 1, extended))
      else Turned(popped, Done, k)
  }

  /** One turn of the evaluation loop. */
  function Turn(s: State, p: string, i: nat, extended: bool, fuel: nat): (t: Turned)
    requires i < |p|
    ensures i < t.next <= |p|
    decreases fuel, |p| - i, 1
  {
    var ch := p[i];
    if IsBlank(ch) then Turned(s, Done, i + 1)
    else if ch == '#' then Turned(s, Done, CommentEnd(p, i + 1))
    else if ch == '[' then
      var l := Literal(p[i + 1..], 1);
      Turned(Pushed(s, Str(l.0)), Done, i + 1 + l.1)
    else if IsDigit(ch) || ch == '_' || ch == '.' then
      var e := NumeralEnd(p, i);
      if e == i then Turned(s, Done, i + 1)
      else
        NumeralIsRead(p, i);
        Turned(Pushed(s, Numeral(p[i..e])), Done, e)
    else if UsesRegister(ch) then
      Turned(RegisterStep(ch, RegName(p, i + 1, extended), s), Done, RegEnd(p, i + 1, extended))
    else if ch == 'x' then
      var r := Execute(s, extended, fuel);
      Turned(r.0, r.1, i + 1)
    else if ch == '?' then
      var r := Query(s, extended, fuel);
      Turned(r.0, r.1, i + 1)
    else if IsTest(ch) then Conditional(ch, false, s, p, i + 1, extended, fuel)
    else if ch == '!' then
      if i + 1 < |p| && IsTest(p[i + 1]) then Conditional(p[i + 1], true, s, p, i + 2, extended, fuel)
      else Turned(s, Done, i + 1)
    else
      var r := Step(ch, s);
      Turned(r.0, r.1, i + 1)
  }
}
