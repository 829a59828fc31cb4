/** The walks of Pollard's rho, by their recurrence, and when a search that tries the constants 1, 2, 3, ...
    one after another meets a proper divisor. */
module RhoWalk {
  import opened NumberTheory

  const WORD: int := 0x1_0000_0000_0000_0000

  /** From 2, each value is the square of the one before modulo n, plus c in 64 bits, modulo n. */
  function Value(n: int, c: nat, i: nat): (x: int)
    requires n > 2
    ensures 0 <= x < n
  {
    if i == 0 then 2 else
      var x := Value(n, c, i - 1);
      ((x * x) % n + c) % WORD % n
  }

  lemma ReducedFirst(a: int, c: int, n: int)
    requires n > 0
    ensures (a % n + c) % n == (a + c) % n
  {
    ModShift(a % n + c, a / n, n);
    assert a / n * n + a % n == a;
  }

  /** Below the word size the recurrence is the quadratic map x * x + c modulo n. */
  lemma ValueIsQuadratic(n: int, c: nat, i: nat)
    requires n > 2 && n + c <= WORD
    ensures Value(n, c, i + 1) == (Value(n, c, i) * Value(n, c, i) + c) % n
  {
    var x := Value(n, c, i);
    var y := (x * x) % n;
    assert (y + c) % WORD == y + c by {
      DivModUnique(y + c, 0, y + c, WORD);
    }
    ReducedFirst(x * x, c, n);
  }

  /** The distance between the walker and the one that is twice as far. */
  function Gap(n: int, c: nat, i: nat): (g: nat)
    requires n > 2
    ensures g < n
  {
    var x, y := Value(n, c, i), Value(n, c, 2 * i);
    if x > y then x - y else y - x
  }

  /** The first `turns` gaps share nothing with n. */
  ghost predicate Apart(n: int, c: nat, turns: nat)
    requires n > 2
  {
    forall j: nat | 1 <= j <= turns :: Gcd(Gap(n, c, j), n) == 1
  }

  /** Turn i is the first whose gap shares a divisor with n. */
  ghost predicate Meets(n: int, c: nat, i: nat)
    requires n > 2
  {
    i >= 1 && Gcd(Gap(n, c, i), n) != 1 && Apart(n, c, i - 1)
  }

  lemma Start(n: int, c: nat)
    requires n > 2
    ensures Value(n, c, 0) == 2 && Apart(n, c, 0)
  {
  }

  /** What turn i + 1 finds decides whether the walkers are still apart. */
  lemma Turn(n: int, c: nat, i: nat)
    requires n > 2 && Apart(n, c, i)
    ensures var x, y, g := Value(n, c, i + 1), Value(n, c, 2 * i + 2), Gap(n, c, i + 1);
      g == (if x > y then x - y else y - x) && if Gcd(g, n) == 1 then Apart(n, c, i + 1) else Meets(n, c, i + 1)
  {
    assert 2 * (i + 1) == 2 * i + 2;
  }

  lemma MeetsLater(n: int, c: nat, i: nat)
    requires n > 2 && Meets(n, c, i)
    ensures i >= 1
  {
  }

  lemma MeetsOnce(n: int, c: nat, i: nat, j: nat)
    requires n > 2 && Meets(n, c, i) && Meets(n, c, j)
    ensures i == j
  {
  }

  /** Constant k + 1 shares no less than n itself, after meets[k] turns. */
  ghost predicate Wasted(n: int, meets: seq<nat>)
    requires n > 2
  {
    forall k | 0 <= k < |meets| :: Meets(n, k + 1, meets[k]) && Gcd(Gap(n, k + 1, meets[k]), n) == n
  }

  lemma Waste(n: int, meets: seq<nat>, i: nat)
    requires n > 2 && Wasted(n, meets)
    requires Meets(n, |meets| + 1, i) && Gcd(Gap(n, |meets| + 1, i), n) == n
    ensures Wasted(n, meets + [i]) && Sum(meets + [i]) == Sum(meets) + i
  {
    assert (meets + [i])[..|meets|] == meets;
  }

  function Sum(s: seq<nat>): nat {
    if s == [] then 0 else Sum(s[..|s| - 1]) + s[|s| - 1]
  }

  lemma NothingWasted(n: int)
    requires n > 2
    ensures Wasted(n, []) && Sum([]) == 0
  {
  }

  /** After the wasted constants the next one meets a divisor below n on turn i. */
  ghost predicate Hit(n: int, meets: seq<nat>, i: nat)
    requires n > 2
  {
    var c := |meets| + 1;
    Wasted(n, meets) && Meets(n, c, i) && Gcd(Gap(n, c, i), n) != n
  }

  /** Some constant meets a divisor below n, and the turns spent on it and on the ones before are within the fuel. */
  ghost predicate HitsWithin(n: int, fuel: nat)
    requires n > 2
  {
    exists meets, i :: Hit(n, meets, i) && Sum(meets) + i <= fuel
  }

  lemma {:induction false} PrefixSum(s: seq<nat>, k: nat)
    requires k < |s|
    ensures Sum(s[..k]) + s[k] <= Sum(s)
    decreases |s|
  {
    var t := s[..|s| - 1];
    if k < |t| {
      assert t[..k] == s[..k];
      PrefixSum(t, k);
    }
  }

  /** Two searches agree on the constants both have wasted. */
  lemma SamePrefix(n: int, a: seq<nat>, b: seq<nat>)
    requires n > 2 && Wasted(n, a) && Wasted(n, b) && |a| <= |b|
    ensures a == b[..|a|]
  {
    forall k | 0 <= k < |a|
      ensures a[k] == b[k]
    {
      MeetsOnce(n, k + 1, a[k], b[k]);
    }
  }

  /** When the turns run out, with `turns` of them spent on the constant after the wasted ones,
      no schedule within the fuel hits. */
  lemma NoHitWithin(n: int, meets: seq<nat>, turns: nat, other: seq<nat>, i: nat)
    requires n > 2 && Wasted(n, meets)
    requires Apart(n, |meets| + 1, turns)
    requires Hit(n, other, i)
    ensures Sum(other) + i > Sum(meets) + turns
  {
    if |other| < |meets| {
      SamePrefix(n, other, meets);
      MeetsOnce(n, |other| + 1, i, meets[|other|]);
      assert false;
    } else if |other| == |meets| {
      SamePrefix(n, meets, other);
      assert other[..|meets|] == other;
    } else {
      SamePrefix(n, meets, other);
      PrefixSum(other, |meets|);
      assert Meets(n, |meets| + 1, other[|meets|]);
    }
  }

  /** There is at most one schedule that hits. */
  lemma HitOnce(n: int, a: seq<nat>, i: nat, b: seq<nat>, j: nat)
    requires n > 2 && Hit(n, a, i) && Hit(n, b, j)
    ensures a == b && i == j
  {
    if |a| < |b| {
      MeetsOnce(n, |a| + 1, i, b[|a|]);
      assert false;
    } else if |b| < |a| {
      MeetsOnce(n, |b| + 1, j, a[|b|]);
      assert false;
    } else {
      SamePrefix(n, a, b);
      assert b[..|a|] == b;
      MeetsOnce(n, |a| + 1, i, j);
    }
  }

  lemma HitIsAnswer(n: int, meets: seq<nat>, i: nat)
    requires n > 2 && Hit(n, meets, i)
    ensures forall other, j :: Hit(n, other, j) ==> other == meets && j == i
  {
    forall other, j | Hit(n, other, j)
      ensures other == meets && j == i
    {
      HitOnce(n, meets, i, other, j);
    }
  }

  lemma OutOfTurns(n: int, meets: seq<nat>, i: nat, fuel: nat)
    requires n > 2 && Wasted(n, meets) && Apart(n, |meets| + 1, i)
    requires Sum(meets) + i == fuel
    ensures !HitsWithin(n, fuel)
  {
    forall other, j | Hit(n, other, j)
      ensures Sum(other) + j > fuel
    {
      NoHitWithin(n, meets, i, other, j);
    }
  }

  lemma NextValue(n: int, c: nat, i: nat, x: int, y: int)
    requires n > 2 && Value(n, c, i) == x && y == ((x * x) % n + c) % WORD % n
    ensures Value(n, c, i + 1) == y
  {
  }

  lemma GapsOfTwentyFive()
    ensures Gap(25, 1, 1) == 4 && Gap(25, 1, 2) == 4 && Gap(25, 1, 3) == 0
    ensures Gap(25, 2, 1) == 7 && Gap(25, 2, 2) == 5
  {
    hide Value;
    Start(25, 1);
    NextValue(25, 1, 0, 2, 5);
    NextValue(25, 1, 1, 5, 1);
    NextValue(25, 1, 2, 1, 2);
    NextValue(25, 1, 3, 2, 5);
    NextValue(25, 1, 4, 5, 1);
    NextValue(25, 1, 5, 1, 2);
    Start(25, 2);
    NextValue(25, 2, 0, 2, 6);
    NextValue(25, 2, 1, 6, 13);
    NextValue(25, 2, 2, 13, 21);
    NextValue(25, 2, 3, 21, 18);
  }

  lemma DivisorsOfTwentyFive()
    ensures Gcd(4, 25) == 1 && Gcd(0, 25) == 25 && Gcd(7, 25) == 1 && Gcd(5, 25) == 5
  {
    assert Gcd(4, 1) == 1 && Gcd(25, 4) == 1;
    assert Gcd(3, 1) == 1 && Gcd(4, 3) == 1 && Gcd(7, 4) == 1 && Gcd(25, 7) == 1;
    assert Gcd(25, 5) == 5;
  }

  /** For 25 the constant 1 is wasted after three turns, and 2 meets the divisor 5 on its second: five turns in all. */
  lemma TwentyFive()
    ensures Hit(25, [3], 2) && Sum([3]) + 2 == 5 && Gcd(Gap(25, 2, 2), 25) == 5
  {
    hide Value, Gap, Gcd;
    GapsOfTwentyFive();
    DivisorsOfTwentyFive();
    Start(25, 1);
    Start(25, 2);
    Turn(25, 1, 0);
    Turn(25, 1, 1);
    Turn(25, 1, 2);
    Turn(25, 2, 0);
    Turn(25, 2, 1);
    NothingWasted(25);
    Waste(25, [], 3);
    assert [] + [3] == [3];
  }
}
