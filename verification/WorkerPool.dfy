/** The bounded worker pool shared by concurrent batches, as a step system over all interleavings. */
module WorkerPool {
  import opened Options
  import opened JsonRpc

  /** The life of one job: not yet submitted; running; response stored; wait group signalled; slot given back. */
  datatype Phase = Unsubmitted | Running | Stored | Signalled | Released

  /** One call of handleBatch. `added` counts wait-group additions, `submitted` successful submissions. */
  datatype Batch = Batch(
    reqs: seq<Request>,
    added: nat,
    submitted: nat,
    wg: int,
    phases: seq<Phase>,
    results: seq<Option<Response>>,
    reply: Option<seq<Response>>)

  /** `sem` is the number of occupied slots of the semaphore channel, whose capacity is `size`. */
  datatype Pool = Pool(size: nat, sem: nat, batches: seq<Batch>)

  datatype Step =
    | Add(b: nat)
    | Submit(b: nat)
    | Finish(b: nat, i: nat, response: Option<Response>)
    | Signal(b: nat, i: nat)
    | Release(b: nat, i: nat)
    | Reply(b: nat)

  /** An answer with the request's id, or none for a notification. */
  predicate Answers(req: Request, response: Option<Response>) {
    (response.Some? <==> req.id.Some?) && (response.Some? ==> response.value.id == req.id)
  }

  /** Something that processing the request can yield. */
  ghost predicate Produced(req: Request, response: Option<Response>) {
    exists w :: response == ProcessRequest(req, w)
  }

  lemma ProducedAnswers(req: Request, response: Option<Response>)
    requires Produced(req, response)
    ensures Answers(req, response)
  {
    hide ProcessRequest;
    var w :| response == ProcessRequest(req, w);
  }

  /** The non-nil results in order. */
  function Collect(results: seq<Option<Response>>): seq<Response> {
    if results == [] then []
    else (if results[0].Some? then [results[0].value] else []) + Collect(results[1..])
  }

  predicate JobIn(p: Pool, b: nat, i: nat, phase: Phase) {
    b < |p.batches| && i < |p.batches[b].phases| && i < |p.batches[b].reqs| && i < |p.batches[b].results|
    && p.batches[b].phases[i] == phase
  }

  ghost predicate Enabled(p: Pool, step: Step) {
    match step
    case Add(b) => b < |p.batches| && p.batches[b].added == p.batches[b].submitted < |p.batches[b].reqs|
    case Submit(b) =>
      && b < |p.batches| && p.batches[b].added == p.batches[b].submitted + 1
      && JobIn(p, b, p.batches[b].submitted, Unsubmitted) && p.sem < p.size
    case Finish(b, i, response) => JobIn(p, b, i, Running) && Produced(p.batches[b].reqs[i], response)
    case Signal(b, i) => JobIn(p, b, i, Stored)
    case Release(b, i) => JobIn(p, b, i, Signalled) && p.sem > 0
    case Reply(b) =>
      && b < |p.batches| && p.batches[b].submitted == |p.batches[b].reqs| && p.batches[b].wg == 0
      && p.batches[b].reply.None?
  }

  function BatchAfter(x: Batch, step: Step): Batch
    requires step.Submit? ==> x.submitted < |x.phases|
    requires step.Finish? ==> step.i < |x.phases| && step.i < |x.results|
    requires step.Signal? || step.Release? ==> step.i < |x.phases|
  {
    match step
    case Add(_) => x.(added := x.added + 1, wg := x.wg + 1)
    case Submit(_) => x.(submitted := x.submitted + 1, phases := x.phases[x.submitted := Running])
    case Finish(_, i, response) =>
      x.(phases := x.phases[i := Stored], results := if response.Some? then x.results[i := response] else x.results)
    case Signal(_, i) => x.(phases := x.phases[i := Signalled], wg := x.wg - 1)
    case Release(_, i) => x.(phases := x.phases[i := Released])
    case Reply(_) => x.(reply := Some(Collect(x.results)))
  }

  ghost function After(p: Pool, step: Step): Pool
    requires Enabled(p, step)
  {
    var b := step.b;
    Pool(p.size,
         if step.Submit? then p.sem + 1 else if step.Release? then p.sem - 1 else p.sem,
         p.batches[b := BatchAfter(p.batches[b], step)])
  }

  // ---- Counting ----

  function HoldsSlot(ph: Phase): nat { if ph.Running? || ph.Stored? || ph.Signalled? then 1 else 0 }

  function Awaited(ph: Phase): nat { if ph.Running? || ph.Stored? then 1 else 0 }

  function Weight(ph: Phase): nat {
    match ph
    case Unsubmitted => 4
    case Running => 3
    case Stored => 2
    case Signalled => 1
    case Released => 0
  }

  function Sum(phases: seq<Phase>, f: Phase -> nat): nat {
    if phases == [] then 0 else f(phases[0]) + Sum(phases[1..], f)
  }

  lemma {:induction false} SumUpdate(phases: seq<Phase>, f: Phase -> nat, i: nat, ph: Phase)
    requires i < |phases|
    ensures Sum(phases[i := ph], f) + f(phases[i]) == Sum(phases, f) + f(ph)
  {
    if i == 0 {
      assert phases[0 := ph][1..] == phases[1..];
    } else {
      assert phases[i := ph][1..] == phases[1..][i - 1 := ph];
      SumUpdate(phases[1..], f, i - 1, ph);
    }
  }

  lemma {:induction false} SumZero(phases: seq<Phase>, f: Phase -> nat)
    ensures Sum(phases, f) == 0 <==> forall i | 0 <= i < |phases| :: f(phases[i]) == 0
  {
    if phases != [] {
      SumZero(phases[1..], f);
      assert (forall i | 0 <= i < |phases| :: f(phases[i]) == 0) ==>
          forall i | 0 <= i < |phases[1..]| :: f(phases[1..][i]) == 0;
      assert (forall i | 0 <= i < |phases[1..]| :: f(phases[1..][i]) == 0) && f(phases[0]) == 0 ==>
          forall i | 0 <= i < |phases| :: f(phases[i]) == 0 by {
        assert forall i | 1 <= i < |phases| :: phases[i] == phases[1..][i - 1];
      }
    }
  }

  /** The number of slots that jobs of the given batches hold. */
  function SlotsHeld(batches: seq<Batch>): nat {
    if batches == [] then 0 else Sum(batches[0].phases, HoldsSlot) + SlotsHeld(batches[1..])
  }

  lemma {:induction false} SlotsUpdate(batches: seq<Batch>, b: nat, x: Batch)
    requires b < |batches|
    ensures SlotsHeld(batches[b := x]) + Sum(batches[b].phases, HoldsSlot) == SlotsHeld(batches) + Sum(x.phases, HoldsSlot)
  {
    if b == 0 {
      assert batches[0 := x][1..] == batches[1..];
    } else {
      assert batches[b := x][1..] == batches[1..][b - 1 := x];
      SlotsUpdate(batches[1..], b - 1, x);
    }
  }

  // ---- The invariant ----

  ghost predicate BatchInv(x: Batch) {
    && |x.phases| == |x.reqs| == |x.results|
    && x.submitted <= x.added <= x.submitted + 1 && x.added <= |x.reqs|
    && (forall i | 0 <= i < |x.phases| :: x.phases[i].Unsubmitted? <==> i >= x.submitted)
    && x.wg == x.added - x.submitted + Sum(x.phases, Awaited)
    && (forall i | 0 <= i < |x.phases| ::
          if x.phases[i].Unsubmitted? || x.phases[i].Running? then x.results[i].None?
          else Answers(x.reqs[i], x.results[i]))
    && (x.reply.Some? ==> x.submitted == |x.reqs| && x.wg == 0 && x.reply.value == Collect(x.results))
  }

  ghost predicate Inv(p: Pool) {
    && p.sem == SlotsHeld(p.batches) <= p.size
    && forall b | 0 <= b < |p.batches| :: BatchInv(p.batches[b])
  }

  predicate Fresh(x: Batch) {
    && x.added == 0 && x.submitted == 0 && x.wg == 0 && x.reply.None?
    && |x.phases| == |x.reqs| == |x.results|
    && (forall i | 0 <= i < |x.phases| :: x.phases[i].Unsubmitted? && x.results[i].None?)
  }

  predicate Init(p: Pool) {
    p.sem == 0 && forall b | 0 <= b < |p.batches| :: Fresh(p.batches[b])
  }

  lemma {:induction false} FreshSlots(batches: seq<Batch>)
    requires forall b | 0 <= b < |batches| :: Fresh(batches[b])
    ensures SlotsHeld(batches) == 0
  {
    if batches != [] {
      SumZero(batches[0].phases, HoldsSlot);
      FreshSlots(batches[1..]);
    }
  }

  lemma InitInv(p: Pool)
    requires Init(p)
    ensures Inv(p)
  {
    FreshSlots(p.batches);
    forall b | 0 <= b < |p.batches| ensures BatchInv(p.batches[b]) {
      SumZero(p.batches[b].phases, Awaited);
    }
  }

  /** The part of a step that changes one batch keeps that batch's invariant. */
  lemma BatchStepInv(x: Batch, step: Step)
    requires BatchInv(x)
    requires match step {
               case Add(_) => x.added == x.submitted < |x.reqs|
               case Submit(_) => x.added == x.submitted + 1
               case Finish(_, i, response) => i < |x.phases| && x.phases[i].Running? && Answers(x.reqs[i], response)
               case Signal(_, i) => i < |x.phases| && x.phases[i].Stored?
               case Release(_, i) => i < |x.phases| && x.phases[i].Signalled?
               case Reply(_) => x.submitted == |x.reqs| && x.wg == 0
             }
    ensures BatchInv(BatchAfter(x, step))
  {
    hide Sum, Collect, Answers;
    match step {
      case Submit(_) => SumUpdate(x.phases, Awaited, x.submitted, Running);
      case Finish(_, i, _) =>
        SumUpdate(x.phases, Awaited, i, Stored);
        AwaitedIsPositive(x, i);
      case Signal(_, i) =>
        SumUpdate(x.phases, Awaited, i, Signalled);
        AwaitedIsPositive(x, i);
      case Release(_, i) => SumUpdate(x.phases, Awaited, i, Released);
      case _ =>
    }
  }

  /** A batch with an awaited job has not replied. */
  lemma AwaitedIsPositive(x: Batch, i: nat)
    requires BatchInv(x) && i < |x.phases| && Awaited(x.phases[i]) == 1
    ensures x.wg > 0 && x.reply.None?
  {
    SumZero(x.phases, Awaited);
  }

  /** Every step of every interleaving keeps the invariant. */
  lemma StepInv(p: Pool, step: Step)
    requires Inv(p) && Enabled(p, step)
    ensures Inv(After(p, step))
  {
    hide SlotsHeld, Sum, Collect, Produced;
    var b := step.b;
    var x := p.batches[b];
    if step.Finish? {
      ProducedAnswers(x.reqs[step.i], step.response);
    }
    BatchStepInv(x, step);
    var y := BatchAfter(x, step);
    SlotsUpdate(p.batches, b, y);
    match step {
      case Submit(_) => SumUpdate(x.phases, HoldsSlot, x.submitted, Running);
      case Finish(_, i, _) => SumUpdate(x.phases, HoldsSlot, i, Stored);
      case Signal(_, i) => SumUpdate(x.phases, HoldsSlot, i, Signalled);
      case Release(_, i) => SumUpdate(x.phases, HoldsSlot, i, Released);
      case _ =>
    }
  }

  // ---- Whole runs ----

  /** The steps can be taken one after the other from p. */
  ghost predicate Run(p: Pool, steps: seq<Step>)
    decreases |steps|
  {
    steps == [] || (Enabled(p, steps[0]) && Run(After(p, steps[0]), steps[1..]))
  }

  ghost function End(p: Pool, steps: seq<Step>): Pool
    requires Run(p, steps)
    decreases |steps|
  {
    if steps == [] then p else End(After(p, steps[0]), steps[1..])
  }

  lemma {:induction false} RunInv(p: Pool, steps: seq<Step>)
    requires Inv(p) && Run(p, steps)
    ensures Inv(End(p, steps)) && End(p, steps).size == p.size
    decreases |steps|
  {
    if steps != [] {
      StepInv(p, steps[0]);
      RunInv(After(p, steps[0]), steps[1..]);
    }
  }

  function RunningJobs(batches: seq<Batch>): nat {
    if batches == [] then 0
    else Sum(batches[0].phases, (ph: Phase) => if ph.Running? then 1 else 0) + RunningJobs(batches[1..])
  }

  lemma {:induction false} SumMonotone(phases: seq<Phase>, f: Phase -> nat, g: Phase -> nat)
    requires forall ph :: f(ph) <= g(ph)
    ensures Sum(phases, f) <= Sum(phases, g)
  {
    if phases != [] {
      SumMonotone(phases[1..], f, g);
    }
  }

  lemma {:induction false} RunningHoldSlots(batches: seq<Batch>)
    ensures RunningJobs(batches) <= SlotsHeld(batches)
  {
    if batches != [] {
      SumMonotone(batches[0].phases, (ph: Phase) => if ph.Running? then 1 else 0, HoldsSlot);
      RunningHoldSlots(batches[1..]);
    }
  }

  /** At no point of any run are more than `size` jobs running. */
  lemma BoundedConcurrency(p: Pool, steps: seq<Step>)
    requires Init(p) && Run(p, steps)
    ensures RunningJobs(End(p, steps).batches) <= p.size
  {
    InitInv(p);
    RunInv(p, steps);
    RunningHoldSlots(End(p, steps).batches);
  }

  // ---- Progress ----

  lemma {:induction false} SlotsZero(batches: seq<Batch>)
    requires forall b, i | 0 <= b < |batches| && 0 <= i < |batches[b].phases| :: HoldsSlot(batches[b].phases[i]) == 0
    ensures SlotsHeld(batches) == 0
  {
    if batches != [] {
      SumZero(batches[0].phases, HoldsSlot);
      SlotsZero(batches[1..]);
    }
  }

  /** Processing a request always yields something. */
  lemma SomeAnswer(req: Request) returns (r: Option<Response>)
    ensures Produced(req, r)
  {
    hide ProcessRequest;
    r := ProcessRequest(req, World(true, true, true, true, true, true, true, true, true, ""));
  }

  /** With at least one worker, some step is enabled until every batch has replied. */
  lemma Progress(p: Pool, b: nat) returns (step: Step)
    requires Inv(p) && p.size >= 1 && b < |p.batches| && p.batches[b].reply.None?
    ensures Enabled(p, step)
  {
    if c, i :| 0 <= c < |p.batches| && 0 <= i < |p.batches[c].phases| && HoldsSlot(p.batches[c].phases[i]) == 1 {
      step := StepOfJob(p, c, i);
    } else {
      SlotsZero(p.batches);
      var x := p.batches[b];
      assert BatchInv(x);
      SumZero(x.phases, Awaited);
      if x.submitted == |x.reqs| {
        step := Reply(b);
      } else if x.added == x.submitted {
        step := Add(b);
      } else {
        step := Submit(b);
      }
    }
  }

  /** A job that holds a slot can always take its next step. */
  lemma StepOfJob(p: Pool, c: nat, i: nat) returns (step: Step)
    requires Inv(p) && c < |p.batches| && i < |p.batches[c].phases| && HoldsSlot(p.batches[c].phases[i]) == 1
    ensures Enabled(p, step)
  {
    var x := p.batches[c];
    assert BatchInv(x);
    if x.phases[i].Running? {
      var r := SomeAnswer(x.reqs[i]);
      step := Finish(c, i, r);
    } else if x.phases[i].Stored? {
      step := Signal(c, i);
    } else {
      SlotsUpdate(p.batches, c, x.(phases := x.phases[i := Released]));
      SumUpdate(x.phases, HoldsSlot, i, Released);
      step := Release(c, i);
    }
  }

  /** The steps a batch still has to take. */
  function BatchWork(x: Batch): int {
    2 * |x.reqs| - x.submitted - x.added + Sum(x.phases, Weight) + if x.reply.None? then 1 else 0
  }

  function Work(batches: seq<Batch>): int {
    if batches == [] then 0 else BatchWork(batches[0]) + Work(batches[1..])
  }

  lemma {:induction false} WorkUpdate(batches: seq<Batch>, b: nat, x: Batch)
    requires b < |batches|
    ensures Work(batches[b := x]) + BatchWork(batches[b]) == Work(batches) + BatchWork(x)
  {
    if b == 0 {
      assert batches[0 := x][1..] == batches[1..];
    } else {
      assert batches[b := x][1..] == batches[1..][b - 1 := x];
      WorkUpdate(batches[1..], b - 1, x);
    }
  }

  lemma {:induction false} WorkIsNat(batches: seq<Batch>)
    requires forall b | 0 <= b < |batches| :: BatchInv(batches[b])
    ensures Work(batches) >= 0
  {
    if batches != [] {
      assert BatchInv(batches[0]);
      WorkIsNat(batches[1..]);
    }
  }

  lemma StepReducesWork(p: Pool, step: Step)
    requires Inv(p) && Enabled(p, step)
    ensures Work(After(p, step).batches) < Work(p.batches)
  {
    hide Work, Sum, Collect;
    var b := step.b;
    var x := p.batches[b];
    WorkUpdate(p.batches, b, BatchAfter(x, step));
    match step {
      case Submit(_) => SumUpdate(x.phases, Weight, x.submitted, Running);
      case Finish(_, i, _) => SumUpdate(x.phases, Weight, i, Stored);
      case Signal(_, i) => SumUpdate(x.phases, Weight, i, Signalled);
      case Release(_, i) => SumUpdate(x.phases, Weight, i, Released);
      case _ =>
    }
  }

  /** No run is longer than the work it starts with, so every run that keeps going ends. */
  lemma {:induction false} RunsAreFinite(p: Pool, steps: seq<Step>)
    requires Inv(p) && Run(p, steps)
    ensures |steps| <= Work(p.batches)
    decreases |steps|
  {
    if steps == [] {
      WorkIsNat(p.batches);
    } else {
      StepInv(p, steps[0]);
      StepReducesWork(p, steps[0]);
      RunsAreFinite(After(p, steps[0]), steps[1..]);
    }
  }

  // ---- Replies ----

  function RequestIds(reqs: seq<Request>): seq<Option<Id>> {
    if reqs == [] then [] else (if reqs[0].id.Some? then [reqs[0].id] else []) + RequestIds(reqs[1..])
  }

  function ResponseIds(responses: seq<Response>): seq<Option<Id>> {
    seq(|responses|, i requires 0 <= i < |responses| => responses[i].id)
  }

  /** What goes out on the connection: nothing when there is nothing to answer. */
  function Sent(x: Batch): Option<seq<Response>> {
    if x.reply.Some? && x.reply.value != [] then x.reply else None
  }

  lemma {:induction false} CollectAnswers(reqs: seq<Request>, results: seq<Option<Response>>)
    requires |reqs| == |results| && forall i | 0 <= i < |reqs| :: Answers(reqs[i], results[i])
    ensures ResponseIds(Collect(results)) == RequestIds(reqs)
  {
    if reqs != [] {
      assert Answers(reqs[0], results[0]);
      forall i | 0 <= i < |reqs[1..]| ensures Answers(reqs[1..][i], results[1..][i]) {
        assert Answers(reqs[i + 1], results[i + 1]);
      }
      CollectAnswers(reqs[1..], results[1..]);
      var rest := Collect(results[1..]);
      if results[0].Some? {
        assert ResponseIds([results[0].value] + rest) == [results[0].value.id] + ResponseIds(rest);
      } else {
        assert Collect(results) == rest;
      }
    }
  }

  /** A reply answers exactly the requests that carry an id, once each and in request order,
      and each answer was produced by the job of its request. */
  lemma ReplyIsComplete(p: Pool, steps: seq<Step>, b: nat)
    requires Init(p) && Run(p, steps) && b < |p.batches| == |End(p, steps).batches|
    requires End(p, steps).batches[b].reply.Some?
    ensures var x := End(p, steps).batches[b];
      && x.reqs == p.batches[b].reqs
      && ResponseIds(x.reply.value) == RequestIds(x.reqs)
      && x.reply.value == Collect(x.results) && |x.results| == |x.reqs|
      && Sent(x) == (if RequestIds(x.reqs) == [] then None else x.reply)
      && (forall i | 0 <= i < |x.results| :: x.reqs[i].id.Some? ==> Finish(b, i, x.results[i]) in steps)
  {
    InitInv(p);
    RunInv(p, steps);
    SameRequests(p, steps, b);
    var x := End(p, steps).batches[b];
    assert BatchInv(x);
    SumZero(x.phases, Awaited);
    forall i | 0 <= i < |x.reqs| ensures Answers(x.reqs[i], x.results[i]) {
      assert Awaited(x.phases[i]) == 0;
    }
    CollectAnswers(x.reqs, x.results);
    forall i | 0 <= i < |x.results| && x.reqs[i].id.Some? ensures Finish(b, i, x.results[i]) in steps {
      assert Answers(x.reqs[i], x.results[i]);
      assert Fresh(p.batches[b]);
      ResultWasProduced(p, steps, b, i);
    }
  }

  lemma {:induction false} SameRequests(p: Pool, steps: seq<Step>, b: nat)
    requires Run(p, steps) && b < |p.batches|
    ensures |End(p, steps).batches| == |p.batches| && End(p, steps).batches[b].reqs == p.batches[b].reqs
    ensures |End(p, steps).batches[b].results| == |p.batches[b].results|
    decreases |steps|
  {
    if steps != [] {
      SameRequests(After(p, steps[0]), steps[1..], b);
    }
  }

  /** A result that was not there at the start was stored by a Finish step of its own job. */
  lemma {:induction false} ResultWasProduced(p: Pool, steps: seq<Step>, b: nat, i: nat)
    requires Run(p, steps) && b < |p.batches| && i < |p.batches[b].results|
    requires |End(p, steps).batches| == |p.batches| && |End(p, steps).batches[b].results| == |p.batches[b].results|
    requires p.batches[b].results[i].None? && End(p, steps).batches[b].results[i].Some?
    ensures Finish(b, i, End(p, steps).batches[b].results[i]) in steps
    decreases |steps|
  {
    var q := After(p, steps[0]);
    SameRequests(q, steps[1..], b);
    var result := End(p, steps).batches[b].results[i];
    if q.batches[b].results[i].None? {
      ResultWasProduced(q, steps[1..], b, i);
    } else {
      assert steps[0].Finish? && steps[0].b == b && steps[0].i == i;
      FinishedStays(q, steps[1..], b, i);
    }
  }

  /** A stored result never changes: its job has left the running phase for good. */
  lemma {:induction false} FinishedStays(p: Pool, steps: seq<Step>, b: nat, i: nat)
    requires Run(p, steps) && b < |p.batches| && i < |p.batches[b].results| && i < |p.batches[b].phases|
    requires !p.batches[b].phases[i].Running? && !p.batches[b].phases[i].Unsubmitted?
    ensures |End(p, steps).batches| == |p.batches| && |End(p, steps).batches[b].results| == |p.batches[b].results|
    ensures End(p, steps).batches[b].results[i] == p.batches[b].results[i]
    decreases |steps|
  {
    if steps != [] {
      FinishedStays(After(p, steps[0]), steps[1..], b, i);
    }
  }

  /** When no step is left, every batch has replied. */
  lemma CompleteRunsReply(p: Pool, steps: seq<Step>, b: nat)
    requires Init(p) && p.size >= 1 && Run(p, steps) && b < |End(p, steps).batches|
    requires forall step :: !Enabled(End(p, steps), step)
    ensures End(p, steps).batches[b].reply.Some?
  {
    InitInv(p);
    RunInv(p, steps);
    if End(p, steps).batches[b].reply.None? {
      var step := Progress(End(p, steps), b);
      assert false;
    }
  }

  /** Without workers no batch that holds a request is ever answered. */
  lemma {:induction false} NoWorkersNoReply(p: Pool, steps: seq<Step>, b: nat)
    requires p.size == 0 && Run(p, steps) && b < |p.batches|
    requires p.batches[b].submitted == 0 && p.batches[b].reqs != [] && p.batches[b].reply.None?
    ensures b < |End(p, steps).batches| && End(p, steps).batches[b].reply.None?
    decreases |steps|
  {
    if steps != [] {
      NoWorkersNoReply(After(p, steps[0]), steps[1..], b);
    }
  }
}
