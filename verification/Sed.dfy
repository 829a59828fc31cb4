/** sed: compiling nested blocks to a flat program with jump targets, and running it. */
module Sed {
  import opened Options

  datatype Kind = Always | IfSubstituted | UnlessSubstituted

  /** A parsed command; A stands for its addresses, C for a command without control flow. */
  datatype Inst<A, C> =
    | Plain(addr: A, cmd: C)
    | Block(addr: A, body: seq<Inst<A, C>>)
    | Label(addr: A, name: string)
    | Branch(addr: A, kind: Kind, name: string)

  /** An element of the compiled program. */
  datatype Flat<A, C> =
    | Run(addr: A, cmd: C)
    | Open(addr: A, target: int)
    | Close
    | Mark(addr: A, name: string)
    | Jump(addr: A, kind: Kind, name: string, target: int)

  /** How a command ends: fall through, or stop the cycle with a reason such as quit or next. */
  datatype Outcome<S> = Go(state: S) | Halt(reason: string, state: S)

  /** What the engine state decides: whether an address selects the current line (which may change the state,
      as ranges do), what a plain command does, and the substitution flag that t and T consult. */
  datatype Semantics<!A, !C, !S> = Semantics(
    test: (A, S) -> (bool, S),
    step: (C, S) -> Outcome<S>,
    substituted: S -> bool,
    clear: S -> S)

  // ---- The meaning of nested blocks ----

  predicate BranchFree<A, C>(insts: seq<Inst<A, C>>)
    decreases insts
  {
    if insts == [] then true
    else
      && (insts[0].Block? ==> BranchFree(insts[0].body))
      && !insts[0].Branch?
      && BranchFree(insts[1..])
  }

  /** Runs a block directly: a command that is not selected is skipped, with everything nested in it. */
  function Exec<A, C, S>(m: Semantics<A, C, S>, insts: seq<Inst<A, C>>, s: S): Outcome<S>
    requires BranchFree(insts)
    decreases insts
  {
    if insts == [] then Go(s)
    else
      var r := ExecOne(m, insts[0], s);
      match r
      case Go(s2) => Exec(m, insts[1..], s2)
      case Halt(_, _) => r
  }

  /** The direct meaning of one command. */
  function ExecOne<A, C, S>(m: Semantics<A, C, S>, inst: Inst<A, C>, s: S): Outcome<S>
    requires !inst.Branch? && (inst.Block? ==> BranchFree(inst.body))
    decreases inst, 0
  {
    var (run, s1) := m.test(inst.addr, s);
    if !run then Go(s1)
    else match inst
         case Plain(_, cmd) => m.step(cmd, s1)
         case Block(_, body) => Exec(m, body, s1)
         case Label(_, _) => Go(s1)
  }

  // ---- compileAst ----

  function FlattenOne<A, C>(inst: Inst<A, C>, base: nat): (r: seq<Flat<A, C>>)
    ensures |r| >= 1
    decreases inst, 0
  {
    match inst
    case Plain(addr, cmd) => [Run(addr, cmd)]
    case Block(addr, body) =>
      var inner := Flatten(body, base + 1);
      [Open(addr, base + 1 + |inner|)] + inner + [Close]
    case Label(addr, name) => [Mark(addr, name)]
    case Branch(addr, kind, name) => [Jump(addr, kind, name, 0)]
  }

  /** The flat form of a block placed at index `base`, before labels are resolved. */
  function Flatten<A, C>(insts: seq<Inst<A, C>>, base: nat): seq<Flat<A, C>>
    decreases insts
  {
    if insts == [] then []
    else
      var first := FlattenOne(insts[0], base);
      first + Flatten(insts[1..], base + |first|)
  }

  /** The recursive pass: appends to `flat` and fills in the target of each opening brace afterwards. */
  method FlattenInto<A, C>(insts: seq<Inst<A, C>>, flat0: seq<Flat<A, C>>) returns (flat: seq<Flat<A, C>>)
    ensures flat == flat0 + Flatten(insts, |flat0|)
    decreases insts
  {
    hide Flatten, FlattenOne;
    flat := flat0;
    assert insts[0..] == insts;
    for i := 0 to |insts|
      invariant flat + Flatten(insts[i..], |flat|) == flat0 + Flatten(insts, |flat0|)
    {
      FlattenStep(insts, i, flat);
      flat := FlattenInst(insts[i], flat);
    }
    FlattenStep(insts, |insts|, flat);
  }

  method FlattenInst<A, C>(inst: Inst<A, C>, flat0: seq<Flat<A, C>>) returns (flat: seq<Flat<A, C>>)
    ensures flat == flat0 + FlattenOne(inst, |flat0|)
    decreases inst, 0
  {
    match inst {
      case Block(addr, body) =>
        var start := |flat0|;
        flat := flat0 + [Open(addr, 0)];
        flat := FlattenInto(body, flat);
        flat := flat + [Close];
        flat := flat[start := Open(addr, |flat| - 1)];
      case Plain(addr, cmd) =>
        flat := flat0 + [Run(addr, cmd)];
      case Label(addr, name) =>
        flat := flat0 + [Mark(addr, name)];
      case Branch(addr, kind, name) =>
        flat := flat0 + [Jump(addr, kind, name, 0)];
    }
  }

  lemma FlattenStep<A, C>(insts: seq<Inst<A, C>>, i: nat, flat: seq<Flat<A, C>>)
    requires i <= |insts|
    ensures i == |insts| ==> flat + Flatten(insts[i..], |flat|) == flat
    ensures i < |insts| ==>
              var next := flat + FlattenOne(insts[i], |flat|);
              flat + Flatten(insts[i..], |flat|) == next + Flatten(insts[i + 1..], |next|)
  {
    if i < |insts| {
      assert insts[i..][0] == insts[i] && insts[i..][1..] == insts[i + 1..];
    }
  }

  /** The last position of a label, if any. */
  function LabelAt<A, C>(flat: seq<Flat<A, C>>, name: string): (r: Option<nat>)
    ensures r.Some? ==> r.value < |flat| && flat[r.value].Mark? && flat[r.value].name == name
    ensures r.Some? ==> forall i | r.value < i < |flat| :: !(flat[i].Mark? && flat[i].name == name)
    ensures r.None? ==> forall i | 0 <= i < |flat| :: !(flat[i].Mark? && flat[i].name == name)
  {
    if flat == [] then None
    else
      var last := |flat| - 1;
      if flat[last].Mark? && flat[last].name == name then Some(last) else LabelAt(flat[..last], name)
  }

  /** A branch refers to a label that the program does not define. */
  predicate Dangling<A, C>(flat: seq<Flat<A, C>>, f: Flat<A, C>) {
    f.Jump? && f.name != "" && LabelAt(flat, f.name).None?
  }

  /** One element with its branch target resolved. */
  function Resolved<A, C>(flat: seq<Flat<A, C>>, f: Flat<A, C>): Flat<A, C> {
    if !f.Jump? then f
    else if f.name == "" then Jump(f.addr, f.kind, f.name, |flat|)
    else match LabelAt(flat, f.name)
         case Some(t) => Jump(f.addr, f.kind, f.name, t)
         case None => f
  }

  method FindLabels<A, C>(flat: seq<Flat<A, C>>) returns (labels: map<string, int>)
    ensures forall name :: name in labels <==> LabelAt(flat, name).Some?
    ensures forall name | name in labels :: labels[name] == LabelAt(flat, name).value
  {
    labels := map[];
    for i := 0 to |flat|
      invariant forall name :: name in labels <==> LabelAt(flat[..i], name).Some?
      invariant forall name | name in labels :: labels[name] == LabelAt(flat[..i], name).value
    {
      assert flat[..i + 1][..i] == flat[..i];
      if flat[i].Mark? {
        labels := labels[flat[i].name := i];
      }
    }
    assert flat[..|flat|] == flat;
  }

  /** Fills in the branch targets, stopping at the first label that is missing. */
  method ResolveJumps<A, C>(raw: seq<Flat<A, C>>, labels: map<string, int>)
    returns (ok: bool, flat: seq<Flat<A, C>>, missing: string)
    requires forall name :: name in labels <==> LabelAt(raw, name).Some?
    requires forall name | name in labels :: labels[name] == LabelAt(raw, name).value
    ensures ok <==> forall i | 0 <= i < |raw| :: !Dangling(raw, raw[i])
    ensures ok ==> |flat| == |raw| && forall i | 0 <= i < |flat| :: flat[i] == Resolved(raw, raw[i])
    ensures !ok ==> missing != "" && LabelAt(raw, missing).None?
  {
    hide LabelAt;
    flat := raw;
    for i := 0 to |flat|
      invariant |flat| == |raw|
      invariant forall j | 0 <= j < i :: flat[j] == Resolved(raw, raw[j]) && !Dangling(raw, raw[j])
      invariant forall j | i <= j < |flat| :: flat[j] == raw[j]
    {
      if flat[i].Jump? {
        var f := flat[i];
        if f.name == "" {
          flat := flat[i := Jump(f.addr, f.kind, f.name, |flat|)];
        } else if f.name in labels {
          flat := flat[i := Jump(f.addr, f.kind, f.name, labels[f.name])];
        } else {
          assert Dangling(raw, raw[i]);
          return false, flat, f.name;
        }
      }
    }
    return true, flat, "";
  }

  /** The compiled program: the flat form with every branch resolved, or the label that is missing. */
  method CompileAst<A, C>(insts: seq<Inst<A, C>>) returns (ok: bool, flat: seq<Flat<A, C>>, missing: string)
    ensures var raw := Flatten(insts, 0);
      && (ok <==> forall i | 0 <= i < |raw| :: !Dangling(raw, raw[i]))
      && (ok ==> |flat| == |raw| && forall i | 0 <= i < |flat| :: flat[i] == Resolved(raw, raw[i]))
      && (!ok ==> missing != "" && LabelAt(raw, missing).None?)
    ensures ok ==> forall i | 0 <= i < |flat| :: TargetOk(flat, i)
  {
    hide Flatten, Dangling, Resolved, LabelAt, TargetOk;
    flat := FlattenInto(insts, []);
    assert [] + Flatten(insts, 0) == Flatten(insts, 0);
    var labels := FindLabels(flat);
    ok, flat, missing := ResolveJumps(flat, labels);
    if ok {
      TargetsAreOk(insts, flat);
    }
  }

  // ---- Jump targets ----

  /** Every opening brace in the piece is closed inside it, given `depth` braces open before it. */
  predicate Balanced<A, C>(piece: seq<Flat<A, C>>, depth: nat) {
    if piece == [] then depth == 0
    else match piece[0]
         case Open(_, _) => Balanced(piece[1..], depth + 1)
         case Close => depth > 0 && Balanced(piece[1..], depth - 1)
         case _ => Balanced(piece[1..], depth)
  }

  /** Brace i of a program placed at `base` targets its matching closing brace. */
  predicate BraceMatches<A, C>(piece: seq<Flat<A, C>>, base: nat, i: nat)
    requires i < |piece| && piece[i].Open?
  {
    var t := piece[i].target - base;
    i < t < |piece| && piece[t].Close? && Balanced(piece[i + 1..t], 0)
  }

  lemma {:induction false} BalancedConcat<A, C>(p: seq<Flat<A, C>>, q: seq<Flat<A, C>>, d: nat, e: nat)
    requires Balanced(p, d) && Balanced(q, e)
    ensures Balanced(p + q, d + e)
  {
    if p == [] {
      assert p + q == q;
    } else {
      assert (p + q)[1..] == p[1..] + q;
      match p[0]
      case Open(_, _) => BalancedConcat(p[1..], q, d + 1, e);
      case Close => BalancedConcat(p[1..], q, d - 1, e);
      case _ => BalancedConcat(p[1..], q, d, e);
    }
  }

  lemma {:induction false} FlattenBalanced<A, C>(insts: seq<Inst<A, C>>, base: nat)
    ensures Balanced(Flatten(insts, base), 0)
    decreases insts
  {
    if insts != [] {
      var first := FlattenOne(insts[0], base);
      if insts[0].Block? {
        var inner := Flatten(insts[0].body, base + 1);
        FlattenBalanced(insts[0].body, base + 1);
        var close: seq<Flat<A, C>> := [Close];
        assert close[1..] == [];
        BalancedConcat(inner, close, 0, 1);
        assert first[1..] == inner + close;
      } else {
        assert first[1..] == [];
      }
      FlattenBalanced(insts[1..], base + |first|);
      BalancedConcat(first, Flatten(insts[1..], base + |first|), 0, 0);
    }
  }

  lemma BraceMatchesWithin<A, C>(all: seq<Flat<A, C>>, pre: seq<Flat<A, C>>, piece: seq<Flat<A, C>>, post: seq<Flat<A, C>>, base: nat, i: nat)
    requires all == pre + piece + post
    requires i < |piece| && piece[i].Open? && BraceMatches(piece, base + |pre|, i)
    ensures all[|pre| + i] == piece[i] && BraceMatches(all, base, |pre| + i)
  {
    var t := piece[i].target - base - |pre|;
    assert all[|pre| + i + 1..|pre| + t] == piece[i + 1..t];
  }

  lemma NonEmpty<A, C>(insts: seq<Inst<A, C>>, base: nat)
    requires |Flatten(insts, base)| > 0
    ensures insts != []
  {
  }

  lemma FlattenSplit<A, C>(insts: seq<Inst<A, C>>, base: nat)
    requires insts != []
    ensures var first := FlattenOne(insts[0], base);
      Flatten(insts, base) == first + Flatten(insts[1..], base + |first|)
  {
  }

  /** Each opening brace targets its matching closing brace. */
  lemma {:induction false} BracesMatch<A, C>(insts: seq<Inst<A, C>>, base: nat, i: nat)
    requires i < |Flatten(insts, base)| && Flatten(insts, base)[i].Open?
    ensures BraceMatches(Flatten(insts, base), base, i)
    decreases insts, 1
  {
    hide Flatten, FlattenOne, BraceMatches;
    NonEmpty(insts, base);
    var first := FlattenOne(insts[0], base);
    var rest := Flatten(insts[1..], base + |first|);
    var all := Flatten(insts, base);
    FlattenSplit(insts, base);
    if i >= |first| {
      BracesMatch(insts[1..], base + |first|, i - |first|);
      BraceMatchesWithin(all, first, rest, [], base, i - |first|);
    } else {
      InstBracesMatch(insts[0], base, i);
      BraceMatchesWithin(all, [], first, rest, base, i);
    }
  }

  lemma {:induction false} InstBracesMatch<A, C>(inst: Inst<A, C>, base: nat, i: nat)
    requires i < |FlattenOne(inst, base)| && FlattenOne(inst, base)[i].Open?
    ensures BraceMatches(FlattenOne(inst, base), base, i)
    decreases inst, 0
  {
    var inner := Flatten(inst.body, base + 1);
    var all := FlattenOne(inst, base);
    var close: seq<Flat<A, C>> := [Close];
    assert all == [all[0]] + inner + close;
    if i == 0 {
      FlattenBalanced(inst.body, base + 1);
      assert all[1..1 + |inner|] == inner;
    } else {
      hide Flatten, FlattenOne;
      BracesMatch(inst.body, base + 1, i - 1);
      BraceMatchesWithin(all, [all[0]], inner, close, base, i - 1);
    }
  }

  /** A brace targets its matching brace; a branch targets the last definition of its label, or the end of
      the program when it names none. */
  ghost predicate TargetOk<A, C>(flat: seq<Flat<A, C>>, i: nat)
    requires i < |flat|
  {
    && (flat[i].Open? ==> BraceMatches(flat, 0, i))
    && (flat[i].Jump? && flat[i].name == "" ==> flat[i].target == |flat|)
    && (flat[i].Jump? && flat[i].name != "" ==>
          var t := flat[i].target;
          && 0 <= t < |flat| && flat[t].Mark? && flat[t].name == flat[i].name
          && forall j | t < j < |flat| :: !(flat[j].Mark? && flat[j].name == flat[i].name))
  }

  /** The two programs agree up to the targets of branches. */
  ghost predicate SameShape<A, C>(p: seq<Flat<A, C>>, q: seq<Flat<A, C>>) {
    && |p| == |q|
    && forall i | 0 <= i < |p| :: if p[i].Jump? then q[i].Jump? && q[i].name == p[i].name else q[i] == p[i]
  }

  lemma {:induction false} BalancedSameShape<A, C>(p: seq<Flat<A, C>>, q: seq<Flat<A, C>>, d: nat)
    requires SameShape(p, q)
    ensures Balanced(p, d) == Balanced(q, d)
  {
    if p != [] {
      assert p[0].Jump? || q[0] == p[0];
      BalancedSameShape(p[1..], q[1..], d);
      BalancedSameShape(p[1..], q[1..], d + 1);
      if d > 0 {
        BalancedSameShape(p[1..], q[1..], d - 1);
      }
    }
  }

  lemma TargetsAreOk<A, C>(insts: seq<Inst<A, C>>, flat: seq<Flat<A, C>>)
    requires var raw := Flatten(insts, 0);
      && (forall i | 0 <= i < |raw| :: !Dangling(raw, raw[i]))
      && |flat| == |raw| && forall i | 0 <= i < |flat| :: flat[i] == Resolved(raw, raw[i])
    ensures forall i | 0 <= i < |flat| :: TargetOk(flat, i)
  {
    hide Flatten, Balanced;
    var raw := Flatten(insts, 0);
    assert SameShape(raw, flat);
    forall i | 0 <= i < |flat|
      ensures TargetOk(flat, i)
    {
      if flat[i].Open? {
        BracesMatch(insts, 0, i);
        var t := flat[i].target;
        BalancedSameShape(raw[i + 1..t], flat[i + 1..t], 0);
      } else if flat[i].Jump? {
        assert !Dangling(raw, raw[i]);
      }
    }
  }

  // ---- execFlat ----

  /** Where a branch goes on, and the state after it consulted the substitution flag. */
  function Taken<A, C, S>(m: Semantics<A, C, S>, kind: Kind, s: S): (bool, S) {
    match kind
    case Always => (true, s)
    case IfSubstituted => (m.substituted(s), m.clear(s))
    case UnlessSubstituted => (!m.substituted(s), m.clear(s))
  }

  /** One turn of the interpreter: the next position and the outcome so far. */
  function Turn<A, C, S>(m: Semantics<A, C, S>, flat: seq<Flat<A, C>>, ip: nat, s: S): (int, Outcome<S>)
    requires ip < |flat|
  {
    var f := flat[ip];
    if f.Close? then (ip + 1, Go(s))
    else
      var (run, s1) := m.test(f.addr, s);
      if !run then (if f.Open? then f.target + 1 else ip + 1, Go(s1))
      else match f {
             case Run(_, cmd) => (ip + 1, m.step(cmd, s1))
             case Jump(_, kind, _, target) =>
               var (taken, s2) := Taken(m, kind, s1);
               (if taken then target else ip + 1, Go(s2))
             case _ => (ip + 1, Go(s1))
           }
  }

  /** Runs the flat program from position ip; None when `fuel` turns do not suffice. */
  function RunFlat<A, C, S>(m: Semantics<A, C, S>, flat: seq<Flat<A, C>>, ip: int, s: S, fuel: nat): Option<Outcome<S>>
    decreases fuel
  {
    if ip < 0 || ip >= |flat| then Some(Go(s))
    else if fuel == 0 then None
    else
      var (next, r) := Turn(m, flat, ip, s);
      if r.Halt? then Some(r) else RunFlat(m, flat, next, r.state, fuel - 1)
  }

  method ExecFlat<A, C, S>(m: Semantics<A, C, S>, insts: seq<Flat<A, C>>, s0: S, fuel: nat) returns (r: Option<Outcome<S>>)
    requires forall i | 0 <= i < |insts| && (insts[i].Open? || insts[i].Jump?) :: insts[i].target >= 0
    ensures r == RunFlat(m, insts, 0, s0, fuel)
  {
    var s := s0;
    var left := fuel;
    var ip := 0;
    while ip < |insts|
      invariant 0 <= ip && RunFlat(m, insts, ip, s, left) == RunFlat(m, insts, 0, s0, fuel)
      decreases left
    {
      if left == 0 {
        return None;
      }
      left := left - 1;
      var inst := insts[ip];
      var run := true;
      if !inst.Close? {
        var t := m.test(inst.addr, s);
        run, s := t.0, t.1;
      }
      if !run {
        if inst.Open? {
          ip := inst.target;
        }
      } else {
        match inst {
          case Open(_, _) =>
          case Close =>
          case Mark(_, _) =>
          case Run(_, cmd) =>
            var o := m.step(cmd, s);
            if o.Halt? {
              return Some(o);
            }
            s := o.state;
          case Jump(_, Always, _, target) =>
            ip := target - 1;
          case Jump(_, IfSubstituted, _, target) =>
            var cond := m.substituted(s);
            s := m.clear(s);
            if cond {
              ip := target - 1;
            }
          case Jump(_, UnlessSubstituted, _, target) =>
            var cond := m.substituted(s);
            s := m.clear(s);
            if !cond {
              ip := target - 1;
            }
        }
      }
      ip := ip + 1;
    }
    return Some(Go(s));
  }

  // ---- The compiled program means what the blocks mean ----

  lemma {:induction false} MoreFuel<A, C, S>(m: Semantics<A, C, S>, flat: seq<Flat<A, C>>, ip: int, s: S, n: nat, k: nat)
    requires n <= k && RunFlat(m, flat, ip, s, n).Some?
    ensures RunFlat(m, flat, ip, s, k) == RunFlat(m, flat, ip, s, n)
    decreases n
  {
    if 0 <= ip < |flat| {
      var (next, r) := Turn(m, flat, ip, s);
      if r.Go? {
        MoreFuel(m, flat, next, r.state, n - 1, k - 1);
      }
    }
  }

  /** From lo on, the run has outcome o, or, when o falls through, that of the run from hi on. */
  ghost predicate Simulates<A, C, S>(m: Semantics<A, C, S>, flat: seq<Flat<A, C>>, lo: nat, hi: nat, s: S, o: Outcome<S>)
    requires lo <= hi
  {
    forall n: nat :: SimulatesWith(m, flat, lo, hi, s, o, n)
  }

  ghost predicate SimulatesWith<A, C, S>(m: Semantics<A, C, S>, flat: seq<Flat<A, C>>, lo: nat, hi: nat, s: S, o: Outcome<S>, n: nat)
    requires lo <= hi
  {
    match o
    case Halt(_, _) => RunFlat(m, flat, lo, s, n + (hi - lo)) == Some(o)
    case Go(t) => RunFlat(m, flat, hi, t, n).Some? ==>
                    RunFlat(m, flat, lo, s, n + (hi - lo)) == RunFlat(m, flat, hi, t, n)
  }

  /** Two simulated pieces in a row. */
  lemma Sequence<A, C, S>(m: Semantics<A, C, S>, flat: seq<Flat<A, C>>, lo: nat, mid: nat, hi: nat, s: S, t: S, o: Outcome<S>)
    requires lo <= mid <= hi
    requires Simulates(m, flat, lo, mid, s, Go(t)) && Simulates(m, flat, mid, hi, t, o)
    ensures Simulates(m, flat, lo, hi, s, o)
  {
    forall n: nat ensures SimulatesWith(m, flat, lo, hi, s, o, n) {
      assert SimulatesWith(m, flat, mid, hi, t, o, n);
      assert SimulatesWith(m, flat, lo, mid, s, Go(t), n + (hi - mid));
      assert n + (hi - mid) + (mid - lo) == n + (hi - lo);
    }
  }

  /** A piece that halts hides what follows it. */
  lemma HaltStays<A, C, S>(m: Semantics<A, C, S>, flat: seq<Flat<A, C>>, lo: nat, mid: nat, hi: nat, s: S, o: Outcome<S>)
    requires lo <= mid <= hi && o.Halt? && Simulates(m, flat, lo, mid, s, o)
    ensures Simulates(m, flat, lo, hi, s, o)
  {
    forall n: nat ensures SimulatesWith(m, flat, lo, hi, s, o, n) {
      assert SimulatesWith(m, flat, lo, mid, s, o, n + (hi - mid));
      assert n + (hi - mid) + (mid - lo) == n + (hi - lo);
    }
  }

  /** One turn that goes to `next` or halts. */
  lemma OneTurn<A, C, S>(m: Semantics<A, C, S>, flat: seq<Flat<A, C>>, lo: nat, hi: nat, s: S)
    requires lo < |flat| && lo < hi
    requires var (next, r) := Turn(m, flat, lo, s); r.Halt? || next == hi
    ensures Simulates(m, flat, lo, hi, s, Turn(m, flat, lo, s).1)
  {
    var (next, r) := Turn(m, flat, lo, s);
    forall n: nat ensures SimulatesWith(m, flat, lo, hi, s, r, n) {
      var k := n + (hi - lo);
      assert RunFlat(m, flat, lo, s, k) == if r.Halt? then Some(r) else RunFlat(m, flat, next, r.state, k - 1);
      if r.Go? && RunFlat(m, flat, hi, r.state, n).Some? {
        MoreFuel(m, flat, hi, r.state, n, k - 1);
      }
    }
  }

  /** The compiled form of a block simulates the block, wherever it is placed. */
  lemma {:induction false} BlockSimulated<A, C, S>(m: Semantics<A, C, S>, insts: seq<Inst<A, C>>, flat: seq<Flat<A, C>>, lo: nat, s: S)
    requires BranchFree(insts)
    requires lo + |Flatten(insts, lo)| <= |flat|
    requires flat[lo..lo + |Flatten(insts, lo)|] == Flatten(insts, lo)
    ensures Simulates(m, flat, lo, lo + |Flatten(insts, lo)|, s, Exec(m, insts, s))
    decreases insts, 1
  {
    var all := Flatten(insts, lo);
    if insts == [] {
      assert forall n: nat :: SimulatesWith(m, flat, lo, lo, s, Go(s), n);
    } else {
      var first := FlattenOne(insts[0], lo);
      var mid, hi := lo + |first|, lo + |all|;
      var rest := Flatten(insts[1..], mid);
      assert flat[lo..mid] == first by {
        assert all[..|first|] == first;
      }
      assert flat[mid..hi] == rest by {
        assert all[|first|..] == rest;
      }
      var o := ExecOne(m, insts[0], s);
      InstSimulated(m, insts[0], flat, lo, s);
      if o.Go? {
        BlockSimulated(m, insts[1..], flat, mid, o.state);
        Sequence(m, flat, lo, mid, hi, s, o.state, Exec(m, insts, s));
      } else {
        HaltStays(m, flat, lo, mid, hi, s, o);
      }
    }
  }

  lemma InnerSlice<T>(s: seq<T>, lo: nat, hi: nat, first: T, inner: seq<T>, last: T)
    requires lo <= hi <= |s| && s[lo..hi] == [first] + inner + [last]
    ensures hi == lo + |inner| + 2 && s[lo] == first && s[lo + 1..hi - 1] == inner && s[hi - 1] == last
  {
    assert |s[lo..hi]| == |inner| + 2;
    assert forall i | lo <= i < hi :: s[i] == s[lo..hi][i - lo];
  }

  lemma {:induction false} InstSimulated<A, C, S>(m: Semantics<A, C, S>, inst: Inst<A, C>, flat: seq<Flat<A, C>>, lo: nat, s: S)
    requires !inst.Branch? && (inst.Block? ==> BranchFree(inst.body))
    requires lo + |FlattenOne(inst, lo)| <= |flat|
    requires flat[lo..lo + |FlattenOne(inst, lo)|] == FlattenOne(inst, lo)
    ensures Simulates(m, flat, lo, lo + |FlattenOne(inst, lo)|, s, ExecOne(m, inst, s))
    decreases inst, 0
  {
    var first := FlattenOne(inst, lo);
    var hi := lo + |first|;
    assert flat[lo] == first[0];
    var (run, s1) := m.test(inst.addr, s);
    if inst.Block? && run {
      var inner := Flatten(inst.body, lo + 1);
      assert first == [Open(inst.addr, lo + 1 + |inner|)] + inner + [Close];
      InnerSlice(flat, lo, hi, first[0], inner, Close);
      OneTurn(m, flat, lo, lo + 1, s);
      BlockSimulated(m, inst.body, flat, lo + 1, s1);
      var o := Exec(m, inst.body, s1);
      Sequence(m, flat, lo, lo + 1, hi - 1, s, s1, o);
      if o.Go? {
        OneTurn(m, flat, hi - 1, hi, o.state);
        Sequence(m, flat, lo, hi - 1, hi, s, o.state, o);
      } else {
        HaltStays(m, flat, lo, hi - 1, hi, s, o);
      }
    } else {
      OneTurn(m, flat, lo, hi, s);
    }
  }

  lemma {:induction false} NothingToResolve<A, C>(insts: seq<Inst<A, C>>, base: nat)
    requires BranchFree(insts)
    ensures forall i | 0 <= i < |Flatten(insts, base)| :: !Flatten(insts, base)[i].Jump?
    decreases insts
  {
    if insts != [] {
      var first := FlattenOne(insts[0], base);
      if insts[0].Block? {
        NothingToResolve(insts[0].body, base + 1);
        var inner := Flatten(insts[0].body, base + 1);
        assert first == [first[0]] + inner + [Close];
        assert forall i | 0 <= i < |first| :: i == 0 || i == |first| - 1 || first[i] == inner[i - 1];
      }
      NothingToResolve(insts[1..], base + |first|);
      var rest := Flatten(insts[1..], base + |first|);
      assert forall i | 0 <= i < |first| :: !first[i].Jump?;
      assert forall i | 0 <= i < |rest| :: !rest[i].Jump?;
      assert Flatten(insts, base) == first + rest;
    }
  }

  /** Without branches, compiling succeeds and running the compiled program is running the blocks. */
  lemma CompiledMeansBlocks<A, C, S>(m: Semantics<A, C, S>, insts: seq<Inst<A, C>>, s: S, fuel: nat)
    requires BranchFree(insts) && fuel >= |Flatten(insts, 0)|
    ensures forall f | f in Flatten(insts, 0) :: !f.Jump?
    ensures RunFlat(m, Flatten(insts, 0), 0, s, fuel) == Some(Exec(m, insts, s))
  {
    var flat := Flatten(insts, 0);
    NothingToResolve(insts, 0);
    BlockSimulated(m, insts, flat, 0, s);
    assert SimulatesWith(m, flat, 0, |flat|, s, Exec(m, insts, s), fuel - |flat|);
  }
}
