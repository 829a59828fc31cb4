/** sed addresses: which cycles a command with one or two addresses selects. */
module SedAddress {
  import opened Options

  /** A line number, `+step` after the first address, the last line, or a regular expression. */
  datatype Address = Line(line: int, step: int) | Last | Regexp(id: int)

  datatype Selector = Selector(addr1: Option<Address>, addr2: Option<Address>, invert: bool)

  /** What a test can see of the current cycle; `matching` holds the expressions that match the pattern space. */
  datatype Cycle = Cycle(lineNum: int, isEOF: bool, matching: set<int>)

  /** The memory of one two-address command: whether its range is open, whether its starting line was
      used up, and the line that closes it. */
  datatype Memory = Memory(active: bool, started: bool, endLine: int)

  function Fresh(sel: Selector): Memory {
    Memory(false, false, if sel.addr2.Some? && sel.addr2.value.Line? then sel.addr2.value.line else 0)
  }

  predicate Matches(a: Address, c: Cycle) {
    match a
    case Line(line, _) => c.lineNum == line
    case Last => c.isEOF
    case Regexp(id) => id in c.matching
  }

  /** The commands of a program share the engine, each with its own memory. */
  class Engine {
    var cycle: Cycle
    var memory: map<int, Memory>

    constructor (cycle: Cycle)
      ensures this.cycle == cycle && memory == map[]
    {
      this.cycle := cycle;
      memory := map[];
    }

    /** Tests the command with the given identity; only its own memory changes. */
    method ShouldRun(id: int, sel: Selector) returns (run: bool)
      modifies this`memory
      ensures var before := if id in old(memory) then old(memory)[id] else Fresh(sel);
        run == Selects(sel, before, cycle).0 &&
        memory == if sel.addr1.Some? && sel.addr2.Some? then old(memory)[id := Selects(sel, before, cycle).1]
                  else old(memory)
    {
      if sel.addr1.None? {
        return !sel.invert;
      }
      if sel.addr2.None? {
        return Matches(sel.addr1.value, cycle) != sel.invert;
      }
      var a1, a2 := sel.addr1.value, sel.addr2.value;
      var m := if id in memory then memory[id] else Fresh(sel);
      var active := m.active;
      if !active {
        var matchStart := false;
        if a1.Line? {
          if cycle.lineNum >= a1.line {
            if !m.started {
              m := m.(started := true);
              matchStart := true;
            }
          }
        } else {
          matchStart := Matches(a1, cycle);
        }
        if matchStart {
          active := true;
          m := m.(active := true);
          if a2.Line? && a2.step > 0 {
            m := m.(endLine := cycle.lineNum + a2.step);
          }
        }
      }
      var result := active;
      if active {
        var closes;
        if a2.Line? {
          closes := cycle.lineNum >= m.endLine;
        } else {
          closes := Matches(a2, cycle);
        }
        if closes {
          m := m.(active := false);
        }
      }
      memory := memory[id := m];
      return result != sel.invert;
    }
  }

  /** The same test as a function of the memory. */
  function Selects(sel: Selector, m: Memory, c: Cycle): (bool, Memory) {
    if sel.addr1.None? then (!sel.invert, m)
    else if sel.addr2.None? then (Matches(sel.addr1.value, c) != sel.invert, m)
    else
      var a1, a2 := sel.addr1.value, sel.addr2.value;
      var opens := !m.active && if a1.Line? then c.lineNum >= a1.line && !m.started else Matches(a1, c);
      var m1 := Memory(m.active || opens, m.started || (opens && a1.Line?),
                       if opens && a2.Line? && a2.step > 0 then c.lineNum + a2.step else m.endLine);
      var closes := m1.active && if a2.Line? then c.lineNum >= m1.endLine else Matches(a2, c);
      (m1.active != sel.invert, m1.(active := m1.active && !closes))
  }

  /** The answers over the cycles at which a command is asked. */
  function Answers(sel: Selector, m: Memory, cycles: seq<Cycle>): (r: seq<bool>)
    ensures |r| == |cycles|
    decreases cycles
  {
    if cycles == [] then []
    else
      var (run, m') := Selects(sel, m, cycles[0]);
      [run] + Answers(sel, m', cycles[1..])
  }

  /** A range between two line numbers, or from a line number on over `+step` lines. */
  predicate IsLineRange(sel: Selector) {
    sel.addr1.Some? && sel.addr2.Some? && sel.addr1.value.Line? && sel.addr2.value.Line?
  }

  predicate Ascending(cycles: seq<Cycle>) {
    forall i, j | 0 <= i < j < |cycles| :: cycles[i].lineNum < cycles[j].lineNum
  }

  /** The first cycle asked about at or after the starting line. */
  function FirstAt(cycles: seq<Cycle>, n: int): (f: nat)
    ensures f <= |cycles| && (f < |cycles| ==> cycles[f].lineNum >= n)
    ensures forall i | 0 <= i < f :: cycles[i].lineNum < n
  {
    if cycles == [] || cycles[0].lineNum >= n then 0 else 1 + FirstAt(cycles[1..], n)
  }

  /** Where a range that opens at line `from` closes. */
  function Closing(sel: Selector, from: int): int
    requires IsLineRange(sel)
  {
    var a2 := sel.addr2.value;
    if a2.step > 0 then from + a2.step else a2.line
  }

  lemma {:induction false} RangeOnce(sel: Selector, m: Memory, cycles: seq<Cycle>, prev: int, i: nat)
    requires IsLineRange(sel) && m.started && Ascending(cycles) && i < |cycles|
    requires m.active <==> prev < m.endLine
    requires cycles[0].lineNum > prev
    ensures Answers(sel, m, cycles)[i] == (((if i == 0 then prev else cycles[i - 1].lineNum) < m.endLine) != sel.invert)
    decreases i
  {
    if i > 0 {
      RangeOnce(sel, Selects(sel, m, cycles[0]).1, cycles[1..], cycles[0].lineNum, i - 1);
    }
  }

  /** A line range selects the first cycle at or after its starting line and goes on until the first cycle at or
      after its closing line; it never opens again. */
  lemma {:induction false} RangeSelects(sel: Selector, cycles: seq<Cycle>, i: nat)
    requires IsLineRange(sel) && Ascending(cycles) && i < |cycles|
    ensures var f := FirstAt(cycles, sel.addr1.value.line);
      Answers(sel, Fresh(sel), cycles)[i] ==
      ((i == f || (i > f && cycles[i - 1].lineNum < Closing(sel, cycles[f].lineNum))) != sel.invert)
    decreases i
  {
    hide Selects, Answers, Closing, Fresh;
    FirstCycle(sel, cycles[0]);
    AnswersStep(sel, Fresh(sel), cycles, i);
    if i > 0 {
      if cycles[0].lineNum >= sel.addr1.value.line {
        RangeOnce(sel, Selects(sel, Fresh(sel), cycles[0]).1, cycles[1..], cycles[0].lineNum, i - 1);
      } else {
        RangeSelects(sel, cycles[1..], i - 1);
      }
    }
  }

  lemma AnswersStep(sel: Selector, m: Memory, cycles: seq<Cycle>, i: nat)
    requires i < |cycles|
    ensures var (run, m') := Selects(sel, m, cycles[0]);
      Answers(sel, m, cycles)[i] == if i == 0 then run else Answers(sel, m', cycles[1..])[i - 1]
  {
    hide Selects;
  }

  /** The first cycle either opens the range or leaves it as it was. */
  lemma FirstCycle(sel: Selector, c: Cycle)
    requires IsLineRange(sel)
    ensures var (run, m) := Selects(sel, Fresh(sel), c);
      if c.lineNum >= sel.addr1.value.line then
        run == !sel.invert && m.started && m.endLine == Closing(sel, c.lineNum) && (m.active <==> c.lineNum < m.endLine)
      else run == sel.invert && m == Fresh(sel)
  {
  }

  /** Asked on every line of the input, `n,m` selects the lines from n to the larger of n and m. */
  lemma RangeOnEveryLine(sel: Selector, cycles: seq<Cycle>, i: nat)
    requires IsLineRange(sel) && sel.addr2.value.step <= 0 && sel.addr1.value.line >= 1
    requires (forall j | 0 <= j < |cycles| :: cycles[j].lineNum == j + 1) && i < |cycles|
    ensures var n, m := sel.addr1.value.line, sel.addr2.value.line;
      Answers(sel, Fresh(sel), cycles)[i] == ((n <= i + 1 <= if m > n then m else n) != sel.invert)
  {
    RangeSelects(sel, cycles, i);
    var n := sel.addr1.value.line;
    var f := FirstAt(cycles, n);
    assert f < |cycles| ==> cycles[f].lineNum == f + 1;
    assert f > 0 ==> cycles[f - 1].lineNum == f;
    assert i > 0 ==> cycles[i - 1].lineNum == i;
  }

  // ---- Ranges with expressions ----

  /** The memory after a row of cycles. */
  function After(sel: Selector, m: Memory, cycles: seq<Cycle>): Memory
    decreases cycles
  {
    if cycles == [] then m else After(sel, Selects(sel, m, cycles[0]).1, cycles[1..])
  }

  lemma {:induction false} AfterOneMore(sel: Selector, m: Memory, cycles: seq<Cycle>, i: nat)
    requires i < |cycles|
    ensures After(sel, m, cycles[..i + 1]) == Selects(sel, After(sel, m, cycles[..i]), cycles[i]).1
    decreases i
  {
    hide Selects;
    if i > 0 {
      var m1, rest := Selects(sel, m, cycles[0]).1, cycles[1..];
      AfterOneMore(sel, m1, rest, i - 1);
      assert cycles[..i + 1][1..] == rest[..i] && cycles[..i][1..] == rest[..i - 1];
    } else {
      assert cycles[..1][1..] == [] && cycles[..0] == [];
    }
  }

  lemma {:induction false} AnswerAt(sel: Selector, m: Memory, cycles: seq<Cycle>, i: nat)
    requires i < |cycles|
    ensures Answers(sel, m, cycles)[i] == Selects(sel, After(sel, m, cycles[..i]), cycles[i]).0
    decreases i
  {
    hide Selects;
    AnswersStep(sel, m, cycles, i);
    if i > 0 {
      AnswerAt(sel, Selects(sel, m, cycles[0]).1, cycles[1..], i - 1);
      assert cycles[..i][1..] == cycles[1..][..i - 1];
    } else {
      assert cycles[..0] == [];
    }
  }

  predicate HasRange(sel: Selector) { sel.addr1.Some? && sel.addr2.Some? }

  /** Cycle j opened the range and none since has closed it, itself included. */
  predicate OpenSince(sel: Selector, cycles: seq<Cycle>, j: nat, i: nat)
    requires HasRange(sel) && j <= i <= |cycles|
  {
    forall k | j <= k < i :: !Matches(sel.addr2.value, cycles[k])
  }

  /** Some cycle before i matches the first address, and none from there on matches the second. */
  ghost predicate OpenBefore(sel: Selector, cycles: seq<Cycle>, i: nat)
    requires HasRange(sel) && i <= |cycles|
  {
    exists j: nat :: j < i && Matches(sel.addr1.value, cycles[j]) && OpenSince(sel, cycles, j, i)
  }

  lemma {:induction false} PatternMemory(sel: Selector, cycles: seq<Cycle>, i: nat)
    requires HasRange(sel) && !sel.addr1.value.Line? && !sel.addr2.value.Line? && i <= |cycles|
    ensures After(sel, Fresh(sel), cycles[..i]).active <==> OpenBefore(sel, cycles, i)
    decreases i
  {
    if i > 0 {
      hide Matches, After;
      PatternMemory(sel, cycles, i - 1);
      AfterOneMore(sel, Fresh(sel), cycles, i - 1);
      var c := cycles[i - 1];
      if Matches(sel.addr2.value, c) {
        assert forall j: nat | j < i :: !OpenSince(sel, cycles, j, i);
      } else {
        assert forall j: nat | j < i - 1 :: OpenSince(sel, cycles, j, i) == OpenSince(sel, cycles, j, i - 1);
        assert OpenSince(sel, cycles, i - 1, i);
      }
    }
  }

  /** Between two expressions (or the last line) a range selects from a match of the first up to the next match of
      the second, which may be the same line; it opens as often as the first matches again. */
  lemma PatternRangeSelects(sel: Selector, cycles: seq<Cycle>, i: nat)
    requires HasRange(sel) && !sel.addr1.value.Line? && !sel.addr2.value.Line? && i < |cycles|
    ensures Answers(sel, Fresh(sel), cycles)[i] ==
      ((Matches(sel.addr1.value, cycles[i]) || OpenBefore(sel, cycles, i)) != sel.invert)
  {
    hide Matches, After;
    AnswerAt(sel, Fresh(sel), cycles, i);
    PatternMemory(sel, cycles, i);
  }

  lemma {:induction false} LineToPatternMemory(sel: Selector, cycles: seq<Cycle>, i: nat)
    requires HasRange(sel) && sel.addr1.value.Line? && !sel.addr2.value.Line? && i <= |cycles|
    ensures var m, f := After(sel, Fresh(sel), cycles[..i]), FirstAt(cycles, sel.addr1.value.line);
      && (m.started <==> f < i)
      && (m.active <==> f < i && OpenSince(sel, cycles, f, i))
    decreases i
  {
    if i > 0 {
      hide Matches, After;
      LineToPatternMemory(sel, cycles, i - 1);
      AfterOneMore(sel, Fresh(sel), cycles, i - 1);
    }
  }

  /** From a line number to an expression a range selects the first cycle at or after the line and everything up to
      the next match, and never opens again. */
  lemma LineToPatternSelects(sel: Selector, cycles: seq<Cycle>, i: nat)
    requires HasRange(sel) && sel.addr1.value.Line? && !sel.addr2.value.Line? && i < |cycles| && Ascending(cycles)
    ensures var f := FirstAt(cycles, sel.addr1.value.line);
      Answers(sel, Fresh(sel), cycles)[i] == ((f <= i && OpenSince(sel, cycles, f, i)) != sel.invert)
  {
    hide Matches, After;
    AnswerAt(sel, Fresh(sel), cycles, i);
    LineToPatternMemory(sel, cycles, i);
  }

  lemma {:induction false} PatternToLineMemory(sel: Selector, cycles: seq<Cycle>, i: nat)
    requires HasRange(sel) && !sel.addr1.value.Line? && sel.addr2.value.Line? && sel.addr2.value.step <= 0
    requires i <= |cycles| && Ascending(cycles)
    ensures var m := After(sel, Fresh(sel), cycles[..i]);
      && m.endLine == sel.addr2.value.line
      && (m.active <==> i > 0 && cycles[i - 1].lineNum < sel.addr2.value.line && MatchedBefore(sel, cycles, i))
    decreases i
  {
    if i > 0 {
      hide Matches, After;
      PatternToLineMemory(sel, cycles, i - 1);
      AfterOneMore(sel, Fresh(sel), cycles, i - 1);
      assert MatchedBefore(sel, cycles, i) <==>
        MatchedBefore(sel, cycles, i - 1) || Matches(sel.addr1.value, cycles[i - 1]);
    }
  }

  predicate MatchedBefore(sel: Selector, cycles: seq<Cycle>, i: nat)
    requires HasRange(sel) && i <= |cycles|
  {
    exists j | 0 <= j < i :: Matches(sel.addr1.value, cycles[j])
  }

  /** From an expression to a line number a range selects every match, and up to the line everything after one. */
  lemma PatternToLineSelects(sel: Selector, cycles: seq<Cycle>, i: nat)
    requires HasRange(sel) && !sel.addr1.value.Line? && sel.addr2.value.Line? && sel.addr2.value.step <= 0
    requires i < |cycles| && Ascending(cycles)
    ensures Answers(sel, Fresh(sel), cycles)[i] ==
      ((|| Matches(sel.addr1.value, cycles[i])
        || (i > 0 && cycles[i - 1].lineNum < sel.addr2.value.line && MatchedBefore(sel, cycles, i))) != sel.invert)
  {
    hide Matches, After;
    AnswerAt(sel, Fresh(sel), cycles, i);
    PatternToLineMemory(sel, cycles, i);
  }

  /** One address selects its line, the last line, or the lines it matches; no address selects every line. */
  lemma SingleAddressSelects(sel: Selector, cycles: seq<Cycle>, i: nat)
    requires sel.addr2.None? && i < |cycles|
    ensures var r, c := Answers(sel, Fresh(sel), cycles)[i] != sel.invert, cycles[i];
      match sel.addr1
      case None => r
      case Some(Line(n, _)) => r <==> c.lineNum == n
      case Some(Last) => r <==> c.isEOF
      case Some(Regexp(id)) => r <==> id in c.matching
  {
    hide After;
    AnswerAt(sel, Fresh(sel), cycles, i);
  }

  /** A range over `+step` lines that an expression opens. */
  predicate IsStepRange(sel: Selector) {
    HasRange(sel) && !sel.addr1.value.Line? && sel.addr2.value.Line? && sel.addr2.value.step > 0
  }

  /** The expression matches at cycle j while no range is open. */
  ghost predicate OpensAt(sel: Selector, cycles: seq<Cycle>, j: nat)
    requires IsStepRange(sel) && j < |cycles|
    decreases j, 1
  {
    Matches(sel.addr1.value, cycles[j]) && !StepOpen(sel, cycles, j)
  }

  /** The cycle before i is still within the reach of one that opened the range. */
  ghost predicate Reaches(sel: Selector, cycles: seq<Cycle>, k: nat, i: nat)
    requires IsStepRange(sel) && k < i <= |cycles|
    decreases i, 0, 0
  {
    OpensAt(sel, cycles, k) && cycles[i - 1].lineNum < cycles[k].lineNum + sel.addr2.value.step
  }

  ghost predicate StepOpen(sel: Selector, cycles: seq<Cycle>, i: nat)
    requires IsStepRange(sel) && i <= |cycles|
    decreases i, 0, 1
  {
    exists k: nat | k < i :: Reaches(sel, cycles, k, i)
  }

  lemma {:induction false} StepMemory(sel: Selector, cycles: seq<Cycle>, i: nat)
    requires IsStepRange(sel) && i <= |cycles| && Ascending(cycles)
    ensures var m := After(sel, Fresh(sel), cycles[..i]);
      && (m.active <==> StepOpen(sel, cycles, i))
      && (forall k: nat | k < i && Reaches(sel, cycles, k, i) :: m.endLine == cycles[k].lineNum + sel.addr2.value.step)
    decreases i
  {
    if i > 0 {
      var j := i - 1;
      hide Matches, After;
      StepMemory(sel, cycles, j);
      AfterOneMore(sel, Fresh(sel), cycles, j);
      forall k: nat | k < j && Reaches(sel, cycles, k, i)
        ensures Reaches(sel, cycles, k, j)
      {
      }
      if OpensAt(sel, cycles, j) {
        assert Reaches(sel, cycles, j, i);
      } else if k: nat :| k < j && Reaches(sel, cycles, k, j) {
        var m := After(sel, Fresh(sel), cycles[..j]);
        assert cycles[j].lineNum < m.endLine ==> Reaches(sel, cycles, k, i);
      }
    }
  }

  /** From an expression over `+step` lines a range selects each match that finds none open and the lines up to `step`
      further on; matches in between do not extend it. */
  lemma StepRangeSelects(sel: Selector, cycles: seq<Cycle>, i: nat)
    requires IsStepRange(sel) && i < |cycles| && Ascending(cycles)
    ensures Answers(sel, Fresh(sel), cycles)[i] == ((OpensAt(sel, cycles, i) || StepOpen(sel, cycles, i)) != sel.invert)
  {
    hide Matches, After;
    AnswerAt(sel, Fresh(sel), cycles, i);
    StepMemory(sel, cycles, i);
  }
}
