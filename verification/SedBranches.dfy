/** sed with labels and branches: what nested blocks mean, and that the flat program means the same. */
module SedBranches {
  import opened Options
  import opened Sed

  // ---- The meaning of nested blocks with labels ----

  /** How a block is left: at its end, by a command that stops the cycle, or by a branch to a label. */
  datatype Exit<S> = Fell(state: S) | Stopped(reason: string, state: S) | Left(name: string, state: S)

  /** Runs a block from its start. */
  function Walk<A, C, S>(m: Semantics<A, C, S>, insts: seq<Inst<A, C>>, s: S): Exit<S>
    decreases insts
  {
    if insts == [] then Fell(s)
    else
      var e := WalkOne(m, insts[0], s);
      if e.Fell? then Walk(m, insts[1..], e.state) else e
  }

  function WalkOne<A, C, S>(m: Semantics<A, C, S>, inst: Inst<A, C>, s: S): Exit<S>
    decreases inst, 0
  {
    var (run, s1) := m.test(inst.addr, s);
    if !run then Fell(s1)
    else match inst
         case Plain(_, cmd) => (match m.step(cmd, s1) case Go(t) => Fell(t) case Halt(reason, t) => Stopped(reason, t))
         case Block(_, body) => Walk(m, body, s1)
         case Label(_, _) => Fell(s1)
         case Branch(_, kind, name) =>
           var (taken, s2) := Taken(m, kind, s1);
           if taken then Left(name, s2) else Fell(s2)
  }

  predicate Defines<A, C>(insts: seq<Inst<A, C>>, name: string)
    decreases insts
  {
    insts != [] && (Defines(insts[1..], name) || DefinesOne(insts[0], name))
  }

  predicate DefinesOne<A, C>(inst: Inst<A, C>, name: string)
    decreases inst, 0
  {
    match inst
    case Label(_, n) => n == name
    case Block(_, body) => Defines(body, name)
    case _ => false
  }

  /** Runs a block from the last definition of a label in it; blocks around the label are entered in their
      middle, without asking for their addresses, and then left like any other. */
  function Enter<A, C, S>(m: Semantics<A, C, S>, insts: seq<Inst<A, C>>, name: string, s: S): Exit<S>
    requires Defines(insts, name)
    decreases insts
  {
    if Defines(insts[1..], name) then Enter(m, insts[1..], name, s)
    else
      var e := EnterOne(m, insts[0], name, s);
      if e.Fell? then Walk(m, insts[1..], e.state) else e
  }

  function EnterOne<A, C, S>(m: Semantics<A, C, S>, inst: Inst<A, C>, name: string, s: S): Exit<S>
    requires DefinesOne(inst, name)
    decreases inst, 0
  {
    match inst
    case Block(_, body) => Enter(m, body, name, s)
    case _ => WalkOne(m, inst, s)
  }

  /** Goes on after a block was left: a branch without a name ends the script, any other enters the script again
      at its label. None when more than `jumps` branches are taken. */
  function Continue<A, C, S>(m: Semantics<A, C, S>, insts: seq<Inst<A, C>>, e: Exit<S>, jumps: nat): Option<Outcome<S>>
    decreases jumps
  {
    match e
    case Fell(t) => Some(Go(t))
    case Stopped(reason, t) => Some(Halt(reason, t))
    case Left(name, t) =>
      if name == "" then Some(Go(t))
      else if jumps == 0 || !Defines(insts, name) then None
      else Continue(m, insts, Enter(m, insts, name, t), jumps - 1)
  }

  /** The direct meaning of a script. */
  function Meaning<A, C, S>(m: Semantics<A, C, S>, insts: seq<Inst<A, C>>, s: S, jumps: nat): Option<Outcome<S>> {
    Continue(m, insts, Walk(m, insts, s), jumps)
  }

  lemma {:induction false} MoreJumps<A, C, S>(m: Semantics<A, C, S>, insts: seq<Inst<A, C>>, e: Exit<S>, j: nat, k: nat)
    requires j <= k && Continue(m, insts, e, j).Some?
    ensures Continue(m, insts, e, k) == Continue(m, insts, e, j)
    decreases j
  {
    if e.Left? && e.name != "" {
      MoreJumps(m, insts, Enter(m, insts, e.name, e.state), j - 1, k - 1);
    }
  }

  /** Without branches this is the meaning of blocks alone. */
  lemma {:induction false} WalkIsExec<A, C, S>(m: Semantics<A, C, S>, insts: seq<Inst<A, C>>, s: S)
    requires BranchFree(insts)
    ensures Walk(m, insts, s) == match Exec(m, insts, s) case Go(t) => Fell(t) case Halt(reason, t) => Stopped(reason, t)
    decreases insts
  {
    if insts != [] {
      var (run, s1) := m.test(insts[0].addr, s);
      if insts[0].Block? && run {
        WalkIsExec(m, insts[0].body, s1);
      }
      var r := ExecOne(m, insts[0], s);
      WalkIsExec(m, insts[1..], r.state);
    }
  }

  // ---- Runs of the flat program ----

  /** After exactly c turns from ip the run is at `next` with state t. */
  ghost predicate Reaches<A, C, S>(m: Semantics<A, C, S>, prog: seq<Flat<A, C>>, ip: int, s: S, c: nat, next: int, t: S) {
    forall n: nat :: ReachesWith(m, prog, ip, s, c, next, t, n)
  }

  ghost predicate ReachesWith<A, C, S>(m: Semantics<A, C, S>, prog: seq<Flat<A, C>>, ip: int, s: S, c: nat, next: int, t: S, n: nat) {
    RunFlat(m, prog, ip, s, n + c) == RunFlat(m, prog, next, t, n)
  }

  /** After c turns from ip the run has stopped. */
  ghost predicate Stops<A, C, S>(m: Semantics<A, C, S>, prog: seq<Flat<A, C>>, ip: int, s: S, c: nat, o: Outcome<S>) {
    forall n: nat :: StopsWith(m, prog, ip, s, c, o, n)
  }

  ghost predicate StopsWith<A, C, S>(m: Semantics<A, C, S>, prog: seq<Flat<A, C>>, ip: int, s: S, c: nat, o: Outcome<S>, n: nat) {
    RunFlat(m, prog, ip, s, n + c) == Some(o)
  }

  /** The raw program with its branches resolved, none of them dangling. */
  ghost predicate Compiled<A, C>(prog: seq<Flat<A, C>>, raw: seq<Flat<A, C>>) {
    && |prog| == |raw|
    && forall i | 0 <= i < |raw| :: prog[i] == Resolved(raw, raw[i]) && !Dangling(raw, raw[i])
  }

  function Target<A, C>(raw: seq<Flat<A, C>>, name: string): int {
    if name == "" then |raw| else match LabelAt(raw, name) case Some(t) => t case None => 0
  }

  /** The run from ip does what the exit says: it reaches the end of the block, or its label, or stops. */
  ghost predicate Follows<A, C, S>(m: Semantics<A, C, S>, prog: seq<Flat<A, C>>, raw: seq<Flat<A, C>>, ip: int, s: S, c: nat, hi: int, e: Exit<S>) {
    match e
    case Fell(t) => Reaches(m, prog, ip, s, c, hi, t)
    case Stopped(reason, t) => Stops(m, prog, ip, s, c, Halt(reason, t))
    case Left(name, t) =>
      c >= 1 && (name != "" ==> LabelAt(raw, name).Some?) && Reaches(m, prog, ip, s, c, Target(raw, name), t)
  }

  lemma Then<A, C, S>(m: Semantics<A, C, S>, prog: seq<Flat<A, C>>, ip: int, s: S, c: nat, mid: int, t: S, d: nat, next: int, u: S)
    requires Reaches(m, prog, ip, s, c, mid, t) && Reaches(m, prog, mid, t, d, next, u)
    ensures Reaches(m, prog, ip, s, c + d, next, u)
  {
    hide RunFlat;
    var k := c + d;
    forall n: nat
      ensures ReachesWith(m, prog, ip, s, k, next, u, n)
    {
      assert ReachesWith(m, prog, mid, t, d, next, u, n);
      assert ReachesWith(m, prog, ip, s, c, mid, t, n + d);
      assert n + d + c == n + k;
    }
  }

  lemma ThenStops<A, C, S>(m: Semantics<A, C, S>, prog: seq<Flat<A, C>>, ip: int, s: S, c: nat, mid: int, t: S, d: nat, o: Outcome<S>)
    requires Reaches(m, prog, ip, s, c, mid, t) && Stops(m, prog, mid, t, d, o)
    ensures Stops(m, prog, ip, s, c + d, o)
  {
    hide RunFlat;
    var k := c + d;
    forall n: nat
      ensures StopsWith(m, prog, ip, s, k, o, n)
    {
      assert StopsWith(m, prog, mid, t, d, o, n);
      assert ReachesWith(m, prog, ip, s, c, mid, t, n + d);
      assert n + d + c == n + k;
    }
  }

  /** A run to `mid` and a piece from there on. */
  lemma ThenFollows<A, C, S>(m: Semantics<A, C, S>, prog: seq<Flat<A, C>>, raw: seq<Flat<A, C>>, ip: int, s: S, c: nat, mid: int, t: S, d: nat, hi: int, e: Exit<S>)
    requires Reaches(m, prog, ip, s, c, mid, t) && Follows(m, prog, raw, mid, t, d, hi, e)
    ensures Follows(m, prog, raw, ip, s, c + d, hi, e)
  {
    hide Reaches, Stops;
    match e
    case Fell(u) => Then(m, prog, ip, s, c, mid, t, d, hi, u);
    case Stopped(reason, u) => ThenStops(m, prog, ip, s, c, mid, t, d, Halt(reason, u));
    case Left(name, u) => Then(m, prog, ip, s, c, mid, t, d, Target(raw, name), u);
  }

  /** A piece that is not left at its end is left the same way whatever follows it. */
  lemma LeftEarly<A, C, S>(m: Semantics<A, C, S>, prog: seq<Flat<A, C>>, raw: seq<Flat<A, C>>, ip: int, s: S, c: nat, mid: int, hi: int, e: Exit<S>)
    requires !e.Fell? && Follows(m, prog, raw, ip, s, c, mid, e)
    ensures Follows(m, prog, raw, ip, s, c, hi, e)
  {
  }

  lemma OneTurn<A, C, S>(m: Semantics<A, C, S>, prog: seq<Flat<A, C>>, ip: nat, s: S)
    requires ip < |prog|
    ensures var (next, r) := Turn(m, prog, ip, s);
      if r.Go? then Reaches(m, prog, ip, s, 1, next, r.state) else Stops(m, prog, ip, s, 1, r)
  {
    var (next, r) := Turn(m, prog, ip, s);
    hide Turn;
    if r.Go? {
      forall n: nat
        ensures ReachesWith(m, prog, ip, s, 1, next, r.state, n)
      {
        assert n + 1 - 1 == n;
      }
    } else {
      forall n: nat
        ensures StopsWith(m, prog, ip, s, 1, r, n)
      {
      }
    }
  }

  lemma NoTurn<A, C, S>(m: Semantics<A, C, S>, prog: seq<Flat<A, C>>, ip: int, s: S)
    ensures Reaches(m, prog, ip, s, 0, ip, s)
  {
    forall n: nat
      ensures ReachesWith(m, prog, ip, s, 0, ip, s, n)
    {
    }
  }

  // ---- The flat form of a block does what the block does ----

  /** The piece stands at position lo of the raw program. */
  ghost predicate At<A, C>(raw: seq<Flat<A, C>>, lo: nat, piece: seq<Flat<A, C>>) {
    lo + |piece| <= |raw| && raw[lo..lo + |piece|] == piece
  }

  lemma AtParts<A, C>(raw: seq<Flat<A, C>>, lo: nat, p: seq<Flat<A, C>>, q: seq<Flat<A, C>>)
    requires At(raw, lo, p + q)
    ensures At(raw, lo, p) && At(raw, lo + |p|, q)
  {
    var all := p + q;
    assert raw[lo..lo + |p|] == all[..|p|];
    assert raw[lo + |p|..lo + |all|] == all[|p|..];
  }

  lemma AtFirst<A, C>(raw: seq<Flat<A, C>>, lo: nat, f: Flat<A, C>, rest: seq<Flat<A, C>>)
    requires At(raw, lo, [f] + rest)
    ensures lo < |raw| && raw[lo] == f && At(raw, lo + 1, rest)
  {
    AtParts(raw, lo, [f], rest);
    assert raw[lo..lo + 1][0] == f;
  }

  lemma {:induction false} WalkFollows<A, C, S>(m: Semantics<A, C, S>, insts: seq<Inst<A, C>>, prog: seq<Flat<A, C>>, raw: seq<Flat<A, C>>, lo: nat, s: S)
    returns (c: nat)
    requires Compiled(prog, raw) && At(raw, lo, Flatten(insts, lo))
    ensures c <= |Flatten(insts, lo)|
    ensures Follows(m, prog, raw, lo, s, c, lo + |Flatten(insts, lo)|, Walk(m, insts, s))
    decreases insts, 1
  {
    hide Follows, Reaches, FlattenOne, Compiled, At, WalkOne;
    if insts == [] {
      c := 0;
      NoTurn(m, prog, lo, s);
      FellAt(m, prog, raw, lo, s, 0, lo, s);
    } else {
      var first := FlattenOne(insts[0], lo);
      var mid := lo + |first|;
      var rest := Flatten(insts[1..], mid);
      AtParts(raw, lo, first, rest);
      c := WalkOneFollows(m, insts[0], prog, raw, lo, s);
      var e := WalkOne(m, insts[0], s);
      if e.Fell? {
        var d := WalkFollows(m, insts[1..], prog, raw, mid, e.state);
        FellReaches(m, prog, raw, lo, s, c, mid, e);
        ThenFollows(m, prog, raw, lo, s, c, mid, e.state, d, mid + |rest|, Walk(m, insts[1..], e.state));
        c := c + d;
      } else {
        LeftEarly(m, prog, raw, lo, s, c, mid, mid + |rest|, e);
      }
    }
  }

  lemma FellAt<A, C, S>(m: Semantics<A, C, S>, prog: seq<Flat<A, C>>, raw: seq<Flat<A, C>>, ip: int, s: S, c: nat, hi: int, t: S)
    requires Reaches(m, prog, ip, s, c, hi, t)
    ensures Follows(m, prog, raw, ip, s, c, hi, Fell(t))
  {
  }

  lemma FellReaches<A, C, S>(m: Semantics<A, C, S>, prog: seq<Flat<A, C>>, raw: seq<Flat<A, C>>, ip: int, s: S, c: nat, hi: int, e: Exit<S>)
    requires e.Fell? && Follows(m, prog, raw, ip, s, c, hi, e)
    ensures Reaches(m, prog, ip, s, c, hi, e.state)
  {
  }

  lemma {:induction false} WalkOneFollows<A, C, S>(m: Semantics<A, C, S>, inst: Inst<A, C>, prog: seq<Flat<A, C>>, raw: seq<Flat<A, C>>, lo: nat, s: S)
    returns (c: nat)
    requires Compiled(prog, raw) && At(raw, lo, FlattenOne(inst, lo))
    ensures c <= |FlattenOne(inst, lo)|
    ensures Follows(m, prog, raw, lo, s, c, lo + |FlattenOne(inst, lo)|, WalkOne(m, inst, s))
    decreases inst, 1
  {
    hide RunFlat;
    var first := FlattenOne(inst, lo);
    var (run, s1) := m.test(inst.addr, s);
    assert first == [first[0]] + first[1..];
    AtFirst(raw, lo, first[0], first[1..]);
    OneTurn(m, prog, lo, s);
    assert prog[lo] == Resolved(raw, raw[lo]) && !Dangling(raw, raw[lo]);
    c := 1;
    if inst.Block? && run {
      hide Reaches, Follows, Stops;
      assert Reaches(m, prog, lo, s, 1, lo + 1, s1);
      var d := BodyFollows(m, inst, prog, raw, lo, s1);
      ThenFollows(m, prog, raw, lo, s, 1, lo + 1, s1, d, lo + |first|, Walk(m, inst.body, s1));
      c := 1 + d;
    }
  }

  /** From the opening brace on: the body, and the closing brace when the body is left at its end. */
  lemma {:induction false} BodyFollows<A, C, S>(m: Semantics<A, C, S>, inst: Inst<A, C>, prog: seq<Flat<A, C>>, raw: seq<Flat<A, C>>, lo: nat, s: S)
    returns (d: nat)
    requires inst.Block? && Compiled(prog, raw) && At(raw, lo, FlattenOne(inst, lo))
    ensures d < |FlattenOne(inst, lo)|
    ensures Follows(m, prog, raw, lo + 1, s, d, lo + |FlattenOne(inst, lo)|, Walk(m, inst.body, s))
    decreases inst, 0
  {
    var inner := Flatten(inst.body, lo + 1);
    var close: seq<Flat<A, C>> := [Close];
    BlockParts(inst, raw, lo);
    var hi := lo + 1 + |inner|;
    assert prog[hi] == Close;
    hide Flatten, FlattenOne, Follows, Reaches, RunFlat, Walk, Compiled;
    d := WalkFollows(m, inst.body, prog, raw, lo + 1, s);
    d := AndClose(m, prog, raw, lo + 1, s, d, hi, Walk(m, inst.body, s));
  }

  lemma BlockParts<A, C>(inst: Inst<A, C>, raw: seq<Flat<A, C>>, lo: nat)
    requires inst.Block? && At(raw, lo, FlattenOne(inst, lo))
    ensures var inner := Flatten(inst.body, lo + 1);
      && |FlattenOne(inst, lo)| == |inner| + 2 && At(raw, lo + 1, inner)
      && lo + 1 + |inner| < |raw| && raw[lo + 1 + |inner|] == Close
  {
    hide Flatten;
    var inner := Flatten(inst.body, lo + 1);
    var open: Flat<A, C> := Open(inst.addr, lo + 1 + |inner|);
    var close: seq<Flat<A, C>> := [Close];
    assert FlattenOne(inst, lo) == [open] + (inner + close);
    AtFirst(raw, lo, open, inner + close);
    AtParts(raw, lo + 1, inner, close);
    assert close == close + [];
    AtFirst(raw, lo + 1 + |inner|, Close, []);
  }

  /** A piece up to a closing brace, and the brace. */
  lemma AndClose<A, C, S>(m: Semantics<A, C, S>, prog: seq<Flat<A, C>>, raw: seq<Flat<A, C>>, ip: int, s: S, c: nat, hi: nat, e: Exit<S>)
    returns (d: nat)
    requires hi < |prog| && prog[hi] == Close && Follows(m, prog, raw, ip, s, c, hi, e)
    ensures c <= d <= c + 1 && Follows(m, prog, raw, ip, s, d, hi + 1, e)
  {
    hide RunFlat;
    d := c;
    if e.Fell? {
      OneTurn(m, prog, hi, e.state);
      Then(m, prog, ip, s, c, hi, e.state, 1, hi + 1, e.state);
      d := c + 1;
    }
  }

  // ---- Labels ----

  lemma {:induction false} LabelInConcat<A, C>(p: seq<Flat<A, C>>, q: seq<Flat<A, C>>, name: string)
    ensures LabelAt(p + q, name) == match LabelAt(q, name) case Some(t) => Some(|p| + t) case None => LabelAt(p, name)
    decreases |q|
  {
    if q == [] {
      assert p + q == p;
    } else {
      var n := |q| - 1;
      assert (p + q)[..|p| + n] == p + q[..n];
      LabelInConcat(p, q[..n], name);
    }
  }

  /** A label is defined in the blocks exactly when the flat form holds it. */
  lemma {:induction false} DefinesIsLabel<A, C>(insts: seq<Inst<A, C>>, lo: nat, name: string)
    ensures Defines(insts, name) <==> LabelAt(Flatten(insts, lo), name).Some?
    decreases insts, 1
  {
    hide LabelAt, FlattenOne;
    if insts == [] {
      NoLabel<A, C>(name);
    } else {
      var first := FlattenOne(insts[0], lo);
      DefinesOneIsLabel(insts[0], lo, name);
      DefinesIsLabel(insts[1..], lo + |first|, name);
      LabelInConcat(first, Flatten(insts[1..], lo + |first|), name);
    }
  }

  lemma NoLabel<A, C>(name: string)
    ensures LabelAt<A, C>([], name).None?
  {
  }

  lemma {:induction false} DefinesOneIsLabel<A, C>(inst: Inst<A, C>, lo: nat, name: string)
    ensures DefinesOne(inst, name) <==> LabelAt(FlattenOne(inst, lo), name).Some?
    decreases inst, 0
  {
    if inst.Block? {
      DefinesIsLabel(inst.body, lo + 1, name);
      LabelInBlock(inst, lo, name);
    } else {
      var one := FlattenOne(inst, lo);
      assert one[..0] == [];
    }
  }

  lemma LabelInBlock<A, C>(inst: Inst<A, C>, lo: nat, name: string)
    requires inst.Block?
    ensures LabelAt(FlattenOne(inst, lo), name) ==
      match LabelAt(Flatten(inst.body, lo + 1), name) case Some(t) => Some(1 + t) case None => None
  {
    hide Flatten;
    var inner := Flatten(inst.body, lo + 1);
    var open: seq<Flat<A, C>> := [Open(inst.addr, lo + 1 + |inner|)];
    var close: seq<Flat<A, C>> := [Close];
    assert FlattenOne(inst, lo) == open + inner + close;
    LabelInConcat(open + inner, close, name);
    LabelInConcat(open, inner, name);
    assert close[..0] == [] && open[..0] == [];
    assert LabelAt(close, name).None? && LabelAt(open, name).None?;
  }

  lemma {:induction false} EnterFollows<A, C, S>(m: Semantics<A, C, S>, insts: seq<Inst<A, C>>, prog: seq<Flat<A, C>>, raw: seq<Flat<A, C>>, lo: nat, name: string, s: S)
    returns (c: nat)
    requires Compiled(prog, raw) && At(raw, lo, Flatten(insts, lo)) && Defines(insts, name)
    ensures c <= |Flatten(insts, lo)| && LabelAt(Flatten(insts, lo), name).Some?
    ensures Follows(m, prog, raw, lo + LabelAt(Flatten(insts, lo), name).value, s, c, lo + |Flatten(insts, lo)|, Enter(m, insts, name, s))
    decreases insts, 1
  {
    hide Follows, Reaches, FlattenOne, Compiled, At, EnterOne, LabelAt, DefinesOne;
    var first := FlattenOne(insts[0], lo);
    var mid := lo + |first|;
    var rest := Flatten(insts[1..], mid);
    AtParts(raw, lo, first, rest);
    LabelInConcat(first, rest, name);
    DefinesIsLabel(insts[1..], mid, name);
    if Defines(insts[1..], name) {
      c := EnterFollows(m, insts[1..], prog, raw, mid, name, s);
    } else {
      c := EnterOneFollows(m, insts[0], prog, raw, lo, name, s);
      var ip := lo + LabelAt(first, name).value;
      var e := EnterOne(m, insts[0], name, s);
      if e.Fell? {
        var d := WalkFollows(m, insts[1..], prog, raw, mid, e.state);
        FellReaches(m, prog, raw, ip, s, c, mid, e);
        ThenFollows(m, prog, raw, ip, s, c, mid, e.state, d, mid + |rest|, Walk(m, insts[1..], e.state));
        c := c + d;
      } else {
        LeftEarly(m, prog, raw, ip, s, c, mid, mid + |rest|, e);
      }
    }
  }

  lemma {:induction false} EnterOneFollows<A, C, S>(m: Semantics<A, C, S>, inst: Inst<A, C>, prog: seq<Flat<A, C>>, raw: seq<Flat<A, C>>, lo: nat, name: string, s: S)
    returns (c: nat)
    requires Compiled(prog, raw) && At(raw, lo, FlattenOne(inst, lo)) && DefinesOne(inst, name)
    ensures c <= |FlattenOne(inst, lo)| && LabelAt(FlattenOne(inst, lo), name).Some?
    ensures Follows(m, prog, raw, lo + LabelAt(FlattenOne(inst, lo), name).value, s, c, lo + |FlattenOne(inst, lo)|, EnterOne(m, inst, name, s))
    decreases inst, 2
  {
    hide Follows, Reaches, RunFlat, At, Walk, Enter, Flatten;
    if inst.Block? {
      BlockParts(inst, raw, lo);
      LabelInBlock(inst, lo, name);
      var inner := Flatten(inst.body, lo + 1);
      c := EnterFollows(m, inst.body, prog, raw, lo + 1, name, s);
      var hi := lo + 1 + |inner|;
      assert prog[hi] == Close;
      c := AndClose(m, prog, raw, lo + 1 + LabelAt(inner, name).value, s, c, hi, Enter(m, inst.body, name, s));
    } else {
      var one := FlattenOne(inst, lo);
      assert one[0].Mark? && LabelAt(one, name) == Some(0);
      c := WalkOneFollows(m, inst, prog, raw, lo, s);
    }
  }

  // ---- Whole scripts ----

  /** What the direct meaning says, the flat run does. */
  lemma {:induction false} ContinueIsRun<A, C, S>(m: Semantics<A, C, S>, insts: seq<Inst<A, C>>, prog: seq<Flat<A, C>>, ip: int, s: S, c: nat, e: Exit<S>, jumps: nat)
    requires var raw := Flatten(insts, 0); Compiled(prog, raw) && c <= |raw| && Follows(m, prog, raw, ip, s, c, |raw|, e)
    requires Continue(m, insts, e, jumps).Some?
    ensures RunFlat(m, prog, ip, s, (jumps + 1) * |prog|) == Continue(m, insts, e, jumps)
    decreases jumps
  {
    hide Flatten, Compiled, RunFlat, LabelAt, Enter, Defines;
    var raw := Flatten(insts, 0);
    SameLength(prog, raw);
    var n := (jumps + 1) * |prog| - c;
    assert n >= jumps * |prog| >= 0 by {
      assert (jumps + 1) * |prog| == jumps * |prog| + |prog|;
    }
    match e
    case Fell(t) =>
      assert ReachesWith(m, prog, ip, s, c, |raw|, t, n);
      RunsOut(m, prog, t, n);
    case Stopped(reason, t) =>
      assert StopsWith(m, prog, ip, s, c, Halt(reason, t), n);
    case Left(name, t) =>
      assert ReachesWith(m, prog, ip, s, c, Target(raw, name), t, n);
      if name == "" {
        RunsOut(m, prog, t, n);
      } else {
        Whole(raw);
        var d := EnterFollows(m, insts, prog, raw, 0, name, t);
        ContinueIsRun(m, insts, prog, Target(raw, name), t, d, Enter(m, insts, name, t), jumps - 1);
        MoreFuel(m, prog, Target(raw, name), t, jumps * |prog|, n);
      }
  }

  lemma SameLength<A, C>(prog: seq<Flat<A, C>>, raw: seq<Flat<A, C>>)
    requires Compiled(prog, raw)
    ensures |prog| == |raw|
  {
  }

  lemma Whole<A, C>(raw: seq<Flat<A, C>>)
    ensures At(raw, 0, raw)
  {
  }

  lemma RunsOut<A, C, S>(m: Semantics<A, C, S>, prog: seq<Flat<A, C>>, t: S, n: nat)
    ensures RunFlat(m, prog, |prog|, t, n) == Some(Go(t))
  {
  }

  /** What the flat run does, the direct meaning says. */
  lemma {:induction false} RunIsContinue<A, C, S>(m: Semantics<A, C, S>, insts: seq<Inst<A, C>>, prog: seq<Flat<A, C>>, ip: int, s: S, c: nat, e: Exit<S>, fuel: nat)
    requires var raw := Flatten(insts, 0); Compiled(prog, raw) && Follows(m, prog, raw, ip, s, c, |raw|, e)
    requires RunFlat(m, prog, ip, s, fuel).Some?
    ensures Continue(m, insts, e, fuel) == RunFlat(m, prog, ip, s, fuel)
    decreases fuel
  {
    hide Flatten, Compiled, RunFlat, LabelAt, Enter, Defines;
    var raw := Flatten(insts, 0);
    SameLength(prog, raw);
    MoreFuel(m, prog, ip, s, fuel, fuel + c);
    match e
    case Fell(t) =>
      assert ReachesWith(m, prog, ip, s, c, |raw|, t, fuel);
      RunsOut(m, prog, t, fuel);
    case Stopped(reason, t) =>
      assert StopsWith(m, prog, ip, s, c, Halt(reason, t), fuel);
    case Left(name, t) =>
      var target := Target(raw, name);
      assert ReachesWith(m, prog, ip, s, c, target, t, fuel);
      if name == "" {
        RunsOut(m, prog, t, fuel);
      } else {
        TargetInside(raw, name);
        DefinesIsLabel(insts, 0, name);
        Whole(raw);
        if fuel < c {
          MoreFuel(m, prog, ip, s, fuel, c);
          assert ReachesWith(m, prog, ip, s, c, target, t, 0);
          NoFuel(m, prog, target, t);
        }
        var n := fuel - c;
        assert ReachesWith(m, prog, ip, s, c, target, t, n);
        var d := EnterFollows(m, insts, prog, raw, 0, name, t);
        RunIsContinue(m, insts, prog, target, t, d, Enter(m, insts, name, t), n);
        MoreJumps(m, insts, Enter(m, insts, name, t), n, fuel - 1);
      }
  }

  lemma TargetInside<A, C>(raw: seq<Flat<A, C>>, name: string)
    requires name != "" && LabelAt(raw, name).Some?
    ensures 0 <= Target(raw, name) < |raw|
  {
  }

  lemma NoFuel<A, C, S>(m: Semantics<A, C, S>, prog: seq<Flat<A, C>>, ip: int, s: S)
    requires 0 <= ip < |prog|
    ensures RunFlat(m, prog, ip, s, 0).None?
  {
  }

  /** Compiling keeps the meaning of every script, branches included: the flat program ends exactly when the nested
      blocks do, with the same state and for the same reason. */
  lemma CompiledMeansScript<A, C, S>(m: Semantics<A, C, S>, insts: seq<Inst<A, C>>, prog: seq<Flat<A, C>>, s: S, o: Outcome<S>)
    requires Compiled(prog, Flatten(insts, 0))
    ensures (exists fuel: nat :: RunFlat(m, prog, 0, s, fuel) == Some(o)) <==>
      exists jumps: nat :: Meaning(m, insts, s, jumps) == Some(o)
  {
    hide RunFlat, Flatten, Compiled, Walk, Continue, Follows;
    var raw := Flatten(insts, 0);
    Whole(raw);
    var c := WalkFollows(m, insts, prog, raw, 0, s);
    if jumps: nat :| Meaning(m, insts, s, jumps) == Some(o) {
      ContinueIsRun(m, insts, prog, 0, s, c, Walk(m, insts, s), jumps);
    }
    if fuel: nat :| RunFlat(m, prog, 0, s, fuel) == Some(o) {
      RunIsContinue(m, insts, prog, 0, s, c, Walk(m, insts, s), fuel);
      assert Meaning(m, insts, s, fuel) == Some(o);
    }
  }

  // ---- What each instruction does, over runs ----

  /** A selected branch goes on at its target: `b` always, `t` exactly when a substitution was made, `T` exactly when
      none was. Otherwise the run goes on at the next position. `t` and `T` clear the flag either way. */
  lemma BranchGoesOn<A, C, S>(m: Semantics<A, C, S>, prog: seq<Flat<A, C>>, ip: nat, s: S, fuel: nat)
    requires ip < |prog| && prog[ip].Jump? && m.test(prog[ip].addr, s).0
    ensures var t, target := m.test(prog[ip].addr, s).1, prog[ip].target;
      var r := RunFlat(m, prog, ip, s, fuel + 1);
      && (prog[ip].kind == Always ==> r == RunFlat(m, prog, target, t, fuel))
      && (prog[ip].kind == IfSubstituted && m.substituted(t) ==> r == RunFlat(m, prog, target, m.clear(t), fuel))
      && (prog[ip].kind == IfSubstituted && !m.substituted(t) ==> r == RunFlat(m, prog, ip + 1, m.clear(t), fuel))
      && (prog[ip].kind == UnlessSubstituted && !m.substituted(t) ==> r == RunFlat(m, prog, target, m.clear(t), fuel))
      && (prog[ip].kind == UnlessSubstituted && m.substituted(t) ==> r == RunFlat(m, prog, ip + 1, m.clear(t), fuel))
  {
  }

  /** The target of a branch in a compiled program: the end without a label, and otherwise the last place of it. */
  lemma BranchTarget<A, C>(prog: seq<Flat<A, C>>, raw: seq<Flat<A, C>>, ip: nat)
    requires Compiled(prog, raw) && ip < |prog| && prog[ip].Jump?
    ensures var name, target := prog[ip].name, prog[ip].target;
      if name == "" then target == |prog|
      else
        && 0 <= target < |prog| && prog[target].Mark? && prog[target].name == name
        && forall i | target < i < |prog| :: !(prog[i].Mark? && prog[i].name == name)
  {
    assert prog[ip] == Resolved(raw, raw[ip]) && !Dangling(raw, raw[ip]);
    var name, target := prog[ip].name, prog[ip].target;
    if name != "" {
      assert prog[target] == Resolved(raw, raw[target]);
      forall i | target < i < |prog|
        ensures !(prog[i].Mark? && prog[i].name == name)
      {
        assert prog[i] == Resolved(raw, raw[i]);
      }
    }
  }

  /** Every other turn: a command halts the run or hands on its state; an opening brace that is not selected jumps
      behind its closing brace; everything else that is not selected, a label and a closing brace fall through. */
  lemma OthersGoOn<A, C, S>(m: Semantics<A, C, S>, prog: seq<Flat<A, C>>, ip: nat, s: S, fuel: nat)
    requires ip < |prog|
    ensures var f, r := prog[ip], RunFlat(m, prog, ip, s, fuel + 1);
      if f.Close? then r == RunFlat(m, prog, ip + 1, s, fuel)
      else
        var (run, t) := m.test(f.addr, s);
        && (!run ==> r == RunFlat(m, prog, if f.Open? then f.target + 1 else ip + 1, t, fuel))
        && (run && (f.Open? || f.Mark?) ==> r == RunFlat(m, prog, ip + 1, t, fuel))
        && (run && f.Run? ==> r == match m.step(f.cmd, t)
                                   case Go(u) => RunFlat(m, prog, ip + 1, u, fuel)
                                   case Halt(reason, u) => Some(Halt(reason, u)))
  {
  }

  lemma WalkStart<A, C, S>(m: Semantics<A, C, S>, insts: seq<Inst<A, C>>, s: S)
    requires insts != []
    ensures var e := WalkOne(m, insts[0], s); Walk(m, insts, s) == if e.Fell? then Walk(m, insts[1..], e.state) else e
  {
  }

  /** The same of the script itself: a branch without a label that is taken ends it, one that is not taken goes on
      with the commands after it. */
  lemma BranchMeans<A, C, S>(m: Semantics<A, C, S>, addr: A, kind: Kind, rest: seq<Inst<A, C>>, s: S, jumps: nat)
    requires m.test(addr, s).0
    ensures var insts, t := [Branch(addr, kind, "")] + rest, m.test(addr, s).1;
      var r := Meaning(m, insts, s, jumps);
      && (kind == Always ==> r == Some(Go(t)))
      && (kind == IfSubstituted && m.substituted(t) ==> r == Some(Go(m.clear(t))))
      && (kind == IfSubstituted && !m.substituted(t) ==> r == Continue(m, insts, Walk(m, rest, m.clear(t)), jumps))
      && (kind == UnlessSubstituted && !m.substituted(t) ==> r == Some(Go(m.clear(t))))
      && (kind == UnlessSubstituted && m.substituted(t) ==> r == Continue(m, insts, Walk(m, rest, m.clear(t)), jumps))
  {
    var insts := [Branch(addr, kind, "")] + rest;
    assert insts[1..] == rest;
    WalkStart(m, insts, s);
  }

  /** A branch to a label that is taken enters the script at that label. */
  lemma LabelledBranchMeans<A, C, S>(
    m: Semantics<A, C, S>, addr: A, kind: Kind, name: string, rest: seq<Inst<A, C>>, s: S, jumps: nat)
    requires m.test(addr, s).0 && name != "" && Defines([Branch(addr, kind, name)] + rest, name)
    ensures var insts, t := [Branch(addr, kind, name)] + rest, m.test(addr, s).1;
      var r := Meaning(m, insts, s, jumps + 1);
      && (kind == Always ==> r == Continue(m, insts, Enter(m, insts, name, t), jumps))
      && (kind == IfSubstituted && m.substituted(t) ==>
            r == Continue(m, insts, Enter(m, insts, name, m.clear(t)), jumps))
      && (kind == UnlessSubstituted && !m.substituted(t) ==>
            r == Continue(m, insts, Enter(m, insts, name, m.clear(t)), jumps))
  {
    hide Enter, Defines;
    var insts := [Branch(addr, kind, name)] + rest;
    assert insts[1..] == rest;
    WalkStart(m, insts, s);
  }
}
