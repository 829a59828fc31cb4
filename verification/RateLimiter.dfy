/** The token bucket in front of the daemon, with real-valued time. */
module RateLimiter {

  /** The bucket as a value. */
  datatype Bucket = Bucket(tokens: real, lastUpdate: real)

  function Min(x: real, y: real): real { if x < y then x else y }

  /** The tokens that flow in over a stretch of time. */
  function Inflow(rate: real, elapsed: real): real { elapsed * rate }

  lemma InflowAdds(rate: real, x: real, y: real)
    ensures Inflow(rate, x) + Inflow(rate, y) == Inflow(rate, x + y)
    ensures rate >= 0.0 && x >= 0.0 ==> Inflow(rate, x) >= 0.0
  {
  }

  /** The tokens available to a call at time `now`, before it takes one. */
  function Available(rate: real, burst: int, b: Bucket, now: real): real {
    Min(b.tokens + Inflow(rate, now - b.lastUpdate), burst as real)
  }

  function Called(rate: real, burst: int, b: Bucket, now: real): (bool, Bucket) {
    var available := Available(rate, burst, b, now);
    var ok := available >= 1.0;
    (ok, Bucket(if ok then available - 1.0 else available, now))
  }

  class RateLimiter {
    const rate: real
    const burst: int
    var tokens: real
    var lastUpdate: real

    constructor (rate: real, burst: int, now: real)
      ensures this.rate == rate && this.burst == burst
      ensures State() == Full(burst, now)
    {
      this.rate := rate;
      this.burst := burst;
      tokens := burst as real;
      lastUpdate := now;
    }

    function State(): Bucket
      reads this
    {
      Bucket(tokens, lastUpdate)
    }

    method Allow(now: real) returns (ok: bool)
      modifies this`tokens, this`lastUpdate
      ensures (ok, State()) == Called(rate, burst, old(State()), now)
    {
      hide Inflow;
      var elapsed := now - lastUpdate;
      tokens := tokens + Inflow(rate, elapsed);
      if tokens > burst as real {
        tokens := burst as real;
      }
      lastUpdate := now;
      if tokens >= 1.0 {
        tokens := tokens - 1.0;
        return true;
      }
      return false;
    }
  }

  function Full(burst: int, now: real): Bucket { Bucket(burst as real, now) }

  // ---- Traces of calls ----

  /** The calls come at non-decreasing times, none before `start`. */
  predicate Ordered(start: real, times: seq<real>)
    decreases times
  {
    times == [] || (start <= times[0] && Ordered(times[0], times[1..]))
  }

  /** The bucket after a trace of calls. */
  function After(rate: real, burst: int, b: Bucket, times: seq<real>): Bucket
    decreases times
  {
    if times == [] then b else After(rate, burst, Called(rate, burst, b, times[0]).1, times[1..])
  }

  /** How many calls of the trace are allowed. */
  function Allowed(rate: real, burst: int, b: Bucket, times: seq<real>): int
    decreases times
  {
    if times == [] then 0
    else (if Called(rate, burst, b, times[0]).0 then 1 else 0) + Allowed(rate, burst, Called(rate, burst, b, times[0]).1, times[1..])
  }

  predicate InRange(burst: int, b: Bucket) { 0.0 <= b.tokens <= burst as real }

  lemma CallKeepsRange(rate: real, burst: int, b: Bucket, now: real)
    requires rate >= 0.0 && InRange(burst, b) && b.lastUpdate <= now
    ensures InRange(burst, Called(rate, burst, b, now).1)
    ensures Available(rate, burst, b, now) <= b.tokens + Inflow(rate, now - b.lastUpdate)
  {
    InflowAdds(rate, now - b.lastUpdate, 0.0);
  }

  /** The number of tokens stays between zero and the burst size. */
  lemma {:induction false} TokensStayInRange(rate: real, burst: int, b: Bucket, times: seq<real>)
    requires rate >= 0.0 && InRange(burst, b) && Ordered(b.lastUpdate, times)
    ensures InRange(burst, After(rate, burst, b, times))
    decreases times
  {
    if times != [] {
      CallKeepsRange(rate, burst, b, times[0]);
      TokensStayInRange(rate, burst, Called(rate, burst, b, times[0]).1, times[1..]);
    }
  }

  /** Tokens are conserved: what was allowed was there at the start or flowed in since. */
  lemma {:induction false} AllowedIsPaidFor(rate: real, burst: int, b: Bucket, times: seq<real>)
    requires rate >= 0.0 && InRange(burst, b) && Ordered(b.lastUpdate, times)
    ensures var e := After(rate, burst, b, times);
      e.lastUpdate >= b.lastUpdate &&
      Allowed(rate, burst, b, times) as real + e.tokens <= b.tokens + Inflow(rate, e.lastUpdate - b.lastUpdate)
    decreases times
  {
    hide Inflow;
    if times == [] {
      InflowAdds(rate, 0.0, 0.0);
    } else {
      var c := Called(rate, burst, b, times[0]).1;
      CallKeepsRange(rate, burst, b, times[0]);
      AllowedIsPaidFor(rate, burst, c, times[1..]);
      var e := After(rate, burst, b, times);
      InflowAdds(rate, e.lastUpdate - c.lastUpdate, c.lastUpdate - b.lastUpdate);
      assert e.lastUpdate - c.lastUpdate + (c.lastUpdate - b.lastUpdate) == e.lastUpdate - b.lastUpdate;
    }
  }

  lemma {:induction false} LastCallTime(rate: real, burst: int, b: Bucket, times: seq<real>)
    requires times != []
    ensures After(rate, burst, b, times).lastUpdate == times[|times| - 1]
    decreases times
  {
    if |times| > 1 {
      LastCallTime(rate, burst, Called(rate, burst, b, times[0]).1, times[1..]);
    }
  }

  /** In any window, from its first to its last call, at most burst + rate * length calls are allowed. */
  lemma WindowBound(rate: real, burst: int, b: Bucket, times: seq<real>)
    requires rate >= 0.0 && InRange(burst, b) && times != [] && Ordered(b.lastUpdate, times)
    ensures Allowed(rate, burst, b, times) as real <= burst as real + Inflow(rate, times[|times| - 1] - times[0])
  {
    hide After, Allowed, Called, Ordered;
    var c := Called(rate, burst, b, times[0]).1;
    FirstCall(rate, burst, b, times);
    AllowedIsPaidFor(rate, burst, c, times[1..]);
    TokensStayInRange(rate, burst, c, times[1..]);
    LastCallTime(rate, burst, b, times);
  }

  lemma FirstCall(rate: real, burst: int, b: Bucket, times: seq<real>)
    requires rate >= 0.0 && InRange(burst, b) && times != [] && Ordered(b.lastUpdate, times)
    ensures var c := Called(rate, burst, b, times[0]).1;
      && InRange(burst, c) && c.lastUpdate == times[0] && Ordered(c.lastUpdate, times[1..])
      && After(rate, burst, c, times[1..]) == After(rate, burst, b, times)
      && Allowed(rate, burst, b, times) as real + c.tokens <= Allowed(rate, burst, c, times[1..]) as real + burst as real
  {
    CallKeepsRange(rate, burst, b, times[0]);
  }

  /** Any window of a run that starts with a full bucket obeys the bound. */
  lemma EveryWindowBound(rate: real, burst: int, start: real, before: seq<real>, times: seq<real>)
    requires rate >= 0.0 && burst >= 0 && times != [] && Ordered(start, before + times)
    ensures Allowed(rate, burst, After(rate, burst, Full(burst, start), before), times) as real
         <= burst as real + Inflow(rate, times[|times| - 1] - times[0])
  {
    OrderedSplit(start, before, times);
    var b := After(rate, burst, Full(burst, start), before);
    TokensStayInRange(rate, burst, Full(burst, start), before);
    if before != [] {
      LastCallTime(rate, burst, Full(burst, start), before);
    }
    WindowBound(rate, burst, b, times);
  }

  lemma {:induction false} OrderedSplit(start: real, before: seq<real>, times: seq<real>)
    requires Ordered(start, before + times)
    ensures Ordered(start, before)
    ensures Ordered(if before == [] then start else before[|before| - 1], times)
    decreases before
  {
    if before == [] {
      assert before + times == times;
    } else {
      assert (before + times)[1..] == before[1..] + times;
      OrderedSplit(before[0], before[1..], times);
    }
  }

  /** Each call comes at least one token's worth of time after the one before. */
  predicate Spaced(rate: real, last: real, times: seq<real>)
    decreases times
  {
    times == [] || (Inflow(rate, times[0] - last) >= 1.0 && Spaced(rate, times[0], times[1..]))
  }

  lemma {:induction false} SpacedNeverRefused(rate: real, burst: int, b: Bucket, times: seq<real>)
    requires rate >= 0.0 && burst >= 1 && InRange(burst, b) && Spaced(rate, b.lastUpdate, times)
    ensures Allowed(rate, burst, b, times) == |times|
    decreases times
  {
    if times != [] {
      assert Available(rate, burst, b, times[0]) >= 1.0;
      SpacedNeverRefused(rate, burst, Called(rate, burst, b, times[0]).1, times[1..]);
    }
  }

  /** A stream no faster than the rate is never refused, from its first call on a full bucket. */
  lemma SteadyStreamPasses(rate: real, burst: int, start: real, times: seq<real>)
    requires rate >= 0.0 && burst >= 1 && times != [] && start <= times[0] && Spaced(rate, times[0], times[1..])
    ensures Allowed(rate, burst, Full(burst, start), times) == |times|
  {
    hide Inflow;
    var b := Full(burst, start);
    CallKeepsRange(rate, burst, b, times[0]);
    InflowAdds(rate, times[0] - start, 0.0);
    SpacedNeverRefused(rate, burst, Called(rate, burst, b, times[0]).1, times[1..]);
  }

  /** With a burst below one, which a rate below one per second gives, nothing is ever allowed. */
  lemma {:induction false} NoBurstNoCalls(rate: real, burst: int, b: Bucket, times: seq<real>)
    requires burst < 1
    ensures Allowed(rate, burst, b, times) == 0
    decreases times
  {
    if times != [] {
      NoBurstNoCalls(rate, burst, Called(rate, burst, b, times[0]).1, times[1..]);
    }
  }

  /** From k whole tokens, k of any number of calls at one instant are allowed. */
  lemma {:induction false} TokensAreSpent(rate: real, burst: int, k: nat, now: real, n: nat)
    requires k <= burst
    ensures Allowed(rate, burst, Bucket(k as real, now), seq(n, i => now)) == if n <= k then n else k
    decreases n
  {
    if n > 0 {
      var times := seq(n, i => now);
      assert times[1..] == seq(n - 1, i => now);
      assert Inflow(rate, now - now) == 0.0;
      TokensAreSpent(rate, burst, if k > 0 then k - 1 else 0, now, n - 1);
    }
  }

  /** A full bucket allows exactly the burst at one instant: that many calls pass, and every further one is refused. */
  lemma BurstPasses(rate: real, burst: nat, start: real, now: real, n: nat)
    requires rate >= 0.0 && start <= now
    ensures Allowed(rate, burst, Full(burst, start), seq(n, i => now)) == if n <= burst then n else burst
  {
    InflowAdds(rate, now - start, 0.0);
    TokensAreSpent(rate, burst, burst, now, n);
    if n > 0 {
      var times := seq(n, i => now);
      assert Inflow(rate, now - now) == 0.0;
      assert Called(rate, burst, Full(burst, start), now) == Called(rate, burst, Bucket(burst as real, now), now);
    }
  }

  /** After the bucket ran empty a call passes exactly when the rate has brought a whole token since. */
  lemma EmptyBucketRefills(rate: real, burst: int, empty: real, now: real)
    requires burst >= 1
    ensures Allowed(rate, burst, Bucket(0.0, empty), [now]) == if (now - empty) * rate >= 1.0 then 1 else 0
  {
    var b, times := Bucket(0.0, empty), [now];
    assert times[1..] == [];
    var c := Called(rate, burst, b, now);
    assert Allowed(rate, burst, b, times) == (if c.0 then 1 else 0) + Allowed(rate, burst, c.1, times[1..]);
    var x := Inflow(rate, now - empty);
    assert x == (now - empty) * rate;
    hide Inflow;
    assert Available(rate, burst, b, now) == Min(x, burst as real);
    assert c.0 <==> x >= 1.0;
  }
}
