/** The factor utility on 64-bit unsigned integers: Miller-Rabin, Pollard's rho, recursive factorisation. */
module Factor {
  import opened NumberTheory
  import RhoWalk

  const TWO64: int := RhoWalk.WORD

  type uint64 = x: int | 0 <= x < TWO64

  // ---- mulMod and powMod ----

  /** The 128-bit product as a high and a low word. */
  function Mul64(a: uint64, b: uint64): (r: (int, int))
    ensures r.0 * TWO64 + r.1 == a * b && 0 <= r.1 < TWO64
  {
    ((a * b) / TWO64, (a * b) % TWO64)
  }

  /** The remainder of a 128-by-64 division, which is defined only when the quotient fits in one word. */
  function Rem64(hi: int, lo: int, m: uint64): (r: int)
    requires 0 <= hi < m && 0 <= lo < TWO64
    ensures 0 <= r < m
  {
    (hi * TWO64 + lo) % m
  }

  lemma MulLess(x: nat, y: nat, t: nat, m: nat)
    requires x < t && y < m
    ensures 0 <= x * y < m * t
  {
    assert x * y <= t * y;
    assert t * y < t * m;
  }

  /** The division is defined as soon as one factor lies below the modulus. */
  lemma HighWordFits(a: uint64, b: uint64, m: uint64)
    requires a < m || b < m
    ensures 0 <= Mul64(a, b).0 < m
  {
    if b < m {
      MulLess(a, b, TWO64, m);
    } else {
      MulLess(b, a, TWO64, m);
    }
    var hi := Mul64(a, b).0;
    assert hi >= m ==> hi * TWO64 >= m * TWO64;
    assert hi < 0 ==> hi * TWO64 <= -TWO64;
  }

  function MulMod64(a: uint64, b: uint64, m: uint64): (r: uint64)
    requires 0 <= Mul64(a, b).0 < m
    ensures r == (a * b) % m
  {
    var p := Mul64(a, b);
    Rem64(p.0, p.1, m)
  }

  /** Square-and-multiply; with modulus 1 and exponent 0 the code answers 1. */
  method PowMod(base0: uint64, exp0: uint64, mod: uint64) returns (result: uint64)
    requires mod > 0
    ensures result == if exp0 == 0 then 1 else Pow(base0, exp0) % mod
  {
    result := 1;
    var base, exp := base0 % mod, exp0;
    PowModStart(base0, exp0, mod);
    while exp > 0
      invariant 0 <= base < mod && 0 <= exp <= exp0 && result >= 0
      invariant result < mod || (result == 1 && (exp > 0 || exp0 == 0))
      invariant exp0 == 0 ==> result == 1
      invariant (result * Pow(base, exp)) % mod == Pow(base0, exp0) % mod
      decreases exp
    {
      hide Pow, Mul64;
      PowHalves(base, exp, mod, result);
      HighWordFits(result, base, mod);
      HighWordFits(base, base, mod);
      if exp % 2 == 1 {
        result := MulMod64(result, base, mod);
      }
      base := MulMod64(base, base, mod);
      exp := exp / 2;
    }
    PowModEnd(base, result, mod, exp0 > 0);
  }

  lemma PowModStart(b: nat, e: nat, m: int)
    requires m > 0
    ensures (1 * Pow(b % m, e)) % m == Pow(b, e) % m
  {
    PowCong(b % m, b, e, m);
  }

  lemma PowModEnd(b: int, r: nat, m: int, moved: bool)
    requires m > 0 && (moved ==> r < m)
    ensures moved ==> (r * Pow(b, 0)) % m == r
  {
    assert r * Pow(b, 0) == r;
    if moved {
      DivModUnique(r, 0, r, m);
    }
  }

  /** One turn of square-and-multiply keeps the product modulo m. */
  lemma PowHalves(b: nat, e: nat, m: int, r: nat)
    requires m > 0 && e > 0
    ensures ((if e % 2 == 1 then (r * b) % m else r) * Pow((b * b) % m, e / 2)) % m == (r * Pow(b, e)) % m
  {
    var h := e / 2;
    PowSquare(b, h);
    PowCong((b * b) % m, b * b, h, m);
    PowParity(b, e);
    hide Pow;
    if e % 2 == 1 {
      ModMod(r * b, m);
      MulCong((r * b) % m, r * b, Pow((b * b) % m, h), Pow(b * b, h), m);
      Regroup(r, b, Pow(b, 2 * h));
    } else {
      MulCong(r, r, Pow((b * b) % m, h), Pow(b * b, h), m);
    }
  }

  lemma Regroup(x: int, y: int, z: int)
    ensures (x * y) * z == x * (y * z)
  {
  }

  lemma PowParity(b: nat, e: nat)
    requires e > 0
    ensures Pow(b, e) == if e % 2 == 1 then b * Pow(b, 2 * (e / 2)) else Pow(b, 2 * (e / 2))
  {
  }

  lemma {:induction false} PowSquare(b: int, h: nat)
    ensures Pow(b * b, h) == Pow(b, 2 * h)
  {
    if h > 0 {
      PowSquare(b, h - 1);
      assert Pow(b, 2 * h) == b * Pow(b, 2 * h - 1) == b * (b * Pow(b, 2 * h - 2));
      assert b * (b * Pow(b, 2 * h - 2)) == (b * b) * Pow(b, 2 * h - 2);
    }
  }

  // ---- Miller-Rabin ----

  const BASES: seq<int> := [2, 3, 5, 7, 11, 13, 17, 19, 23, 29, 31, 37]

  /** n passes the strong test to base a, where n - 1 is d times the s-th power of two. */
  ghost predicate StrongTest(n: int, a: nat, d: nat, s: nat)
    requires n > 0
  {
    Residue(n, a, d, 0) == 1 || exists r: nat | r < s :: Residue(n, a, d, r) == n - 1
  }

  /** a to the d, squared r times. */
  ghost function Residue(n: int, a: nat, d: nat, r: nat): (x: int)
    requires n > 0
    ensures 0 <= x < n
  {
    Pow(a, d * Pow2(r)) % n
  }

  lemma FirstResidue(n: int, a: nat, d: nat)
    requires n > 0
    ensures Residue(n, a, d, 0) == Pow(a, d) % n
  {
    assert d * Pow2(0) == d;
  }

  function Pow2(e: nat): (r: nat)
    ensures r >= 1
  {
    if e == 0 then 1 else 2 * Pow2(e - 1)
  }

  ghost predicate Decomposed(m: int, d: nat, s: nat) { m == d * Pow2(s) && d % 2 == 1 }

  /** What the test accepts: 2, 3, and odd numbers that pass the strong test to every base below them. */
  ghost predicate Passes(n: int) {
    || n == 2 || n == 3
    || (n > 3 && n % 2 == 1 &&
        forall d: nat, s: nat, a | Decomposed(n - 1, d, s) && a in BASES && a < n :: StrongTest(n, a, d, s))
  }

  lemma SquareOfPower(a: nat, d: nat, r: nat, n: int)
    requires n > 0
    ensures Residue(n, a, d, r + 1) == (Residue(n, a, d, r) * Residue(n, a, d, r)) % n
  {
    var e := d * Pow2(r);
    assert d * Pow2(r + 1) == e + e;
    PowAdd(a, e, e);
    MulMod(Pow(a, e), Pow(a, e), n);
  }

  /** If some squaring of a to the d ends at 1 modulo a prime, it started at 1 or passed -1 on the way. */
  lemma {:induction false} RootChain(p: int, a: nat, d: nat, s: nat)
    requires IsPrime(p) && Residue(p, a, d, s) == 1
    ensures StrongTest(p, a, d, s)
    decreases s
  {
    hide Residue;
    if s > 0 {
      var x := Residue(p, a, d, s - 1);
      SquareOfPower(a, d, s - 1, p);
      SquareRootsOfOne(p, x);
      if x == 1 {
        RootChain(p, a, d, s - 1);
      }
    }
  }

  /** Every prime passes. */
  lemma PrimesPass(p: int)
    requires IsPrime(p)
    ensures Passes(p)
  {
    if p > 3 {
      assert p % 2 != 0;
      forall d: nat, s: nat, a | Decomposed(p - 1, d, s) && a in BASES && a < p
        ensures StrongTest(p, a, d, s)
      {
        DivModUnique(a, 0, a, p);
        Fermat(p, a);
        RootChain(p, a, d, s);
      }
    }
  }

  lemma Parity(d: nat, s: nat)
    requires d % 2 == 1
    ensures s > 0 ==> d * Pow2(s) == 2 * (d * Pow2(s - 1))
    ensures s == 0 ==> d * Pow2(s) == d
  {
  }

  lemma {:induction false} DecomposedOnce(d: nat, s: nat, d': nat, s': nat)
    requires d % 2 == 1 && d' % 2 == 1 && d * Pow2(s) == d' * Pow2(s')
    ensures d == d' && s == s'
    decreases s
  {
    hide Pow2;
    Parity(d, s);
    Parity(d', s');
    if s > 0 && s' > 0 {
      DecomposedOnce(d, s - 1, d', s' - 1);
    }
  }

  /** Writes an even number as an odd number times a power of two. */
  method SplitTwos(m: uint64) returns (d: uint64, s: nat)
    requires m > 0
    ensures Decomposed(m, d, s)
  {
    d, s := m, 0;
    while d % 2 == 0
      invariant d > 0 && m == d * Pow2(s)
      decreases d
    {
      assert (d / 2) * Pow2(s + 1) == d * Pow2(s) by {
        assert d == 2 * (d / 2);
      }
      d := d / 2;
      s := s + 1;
    }
  }

  lemma PowOfWhole(a: int, d: nat)
    ensures d == 0 ==> Pow(a, d) == 1
  {
  }

  lemma Witness(n: int, a: nat, d: nat, s: nat, r: nat)
    requires n > 0 && r < s && Residue(n, a, d, r) == n - 1
    ensures StrongTest(n, a, d, s)
  {
  }

  /** The residues seen so far are not the one looked for. */
  ghost predicate NoneUpTo(n: int, a: nat, d: nat, r: nat)
    requires n > 0
  {
    forall q: nat | q <= r :: Residue(n, a, d, q) != n - 1
  }

  lemma NoWitness(n: int, a: nat, d: nat, s: nat, r: nat)
    requires n > 0 && Residue(n, a, d, 0) != 1 && NoneUpTo(n, a, d, r) && s <= r + 1
    ensures !StrongTest(n, a, d, s)
  {
  }

  lemma NoneFirst(n: int, a: nat, d: nat)
    requires n > 0 && Residue(n, a, d, 0) != n - 1
    ensures NoneUpTo(n, a, d, 0)
  {
  }

  lemma NoneNext(n: int, a: nat, d: nat, r: nat)
    requires n > 0 && NoneUpTo(n, a, d, r) && Residue(n, a, d, r + 1) != n - 1
    ensures NoneUpTo(n, a, d, r + 1)
  {
  }

  method FirstPower(n: uint64, a: uint64, d: uint64) returns (x: uint64)
    requires n > 3
    ensures x == Residue(n, a, d, 0)
  {
    hide Pow, Residue;
    x := PowMod(a, d, n);
    PowOfWhole(a, d);
    FirstResidue(n, a, d);
  }

  method NextPower(n: uint64, a: uint64, d: uint64, ghost r: nat, x: uint64) returns (y: uint64)
    requires n > 3 && x == Residue(n, a, d, r)
    ensures y == Residue(n, a, d, r + 1)
  {
    hide Mul64, Residue;
    SquareOfPower(a, d, r, n);
    HighWordFits(x, x, n);
    y := MulMod64(x, x, n);
  }

  /** The strong test to one base. */
  method TestBase(n: uint64, a: uint64, d: uint64, s: nat) returns (ok: bool)
    requires n > 3 && a < n
    ensures ok <==> StrongTest(n, a, d, s) || (s == 0 && Residue(n, a, d, 0) == n - 1)
  {
    hide Residue, NoneUpTo;
    var x := FirstPower(n, a, d);
    if x == 1 || x == n - 1 {
      if s > 0 && x == n - 1 {
        Witness(n, a, d, s, 0);
      }
      return true;
    }
    hide StrongTest;
    NoneFirst(n, a, d);
    var r := 0;
    while r < s - 1
      invariant 0 <= r && (s > 0 ==> r <= s - 1)
      invariant x == Residue(n, a, d, r) && NoneUpTo(n, a, d, r)
    {
      x := NextPower(n, a, d, r, x);
      if x == n - 1 {
        Witness(n, a, d, s, r + 1);
        return true;
      }
      NoneNext(n, a, d, r);
      r := r + 1;
    }
    NoWitness(n, a, d, s, r);
    return false;
  }

  lemma BasesAscend()
    ensures |BASES| == 12
    ensures forall i, j | 0 <= i < j < |BASES| :: BASES[i] < BASES[j]
    ensures forall i | 0 <= i < |BASES| :: 2 <= BASES[i] < TWO64
  {
  }

  /** Exactly the numbers that `Passes` describes are accepted; every prime is among them. */
  method MillerRabin(n: uint64) returns (prime: bool)
    ensures prime <==> Passes(n)
    ensures IsPrime(n) ==> prime
  {
    if IsPrime(n) {
      PrimesPass(n);
    }
    if n < 2 {
      return false;
    }
    if n == 2 || n == 3 {
      return true;
    }
    if n % 2 == 0 {
      return false;
    }
    var d, s := SplitTwos(n - 1);
    assert s > 0 by {
      assert s == 0 ==> d * Pow2(s) == d;
    }
    BasesAscend();
    for i := 0 to |BASES|
      invariant forall j | 0 <= j < i :: BASES[j] < n && StrongTest(n, BASES[j], d, s)
    {
      var a := BASES[i];
      if n <= a {
        break;
      }
      var ok := TestBase(n, a, d, s);
      if !ok {
        assert a in BASES;
        return false;
      }
    }
    AllBases(n, d, s);
    return true;
  }

  lemma AllBases(n: int, d: nat, s: nat)
    requires n > 3 && n % 2 == 1 && Decomposed(n - 1, d, s)
    requires forall a | a in BASES && a < n :: StrongTest(n, a, d, s)
    ensures Passes(n)
  {
    forall d': nat, s': nat, a | Decomposed(n - 1, d', s') && a in BASES && a < n
      ensures StrongTest(n, a, d', s')
    {
      DecomposedOnce(d, s, d', s');
    }
  }

  // ---- Below 41 squared the test is exact ----

  lemma {:induction false} Decompose(m: nat) returns (d: nat, s: nat)
    requires m > 0
    ensures Decomposed(m, d, s)
  {
    if m % 2 == 1 {
      d, s := m, 0;
    } else {
      d, s := Decompose(m / 2);
      assert d * Pow2(s + 1) == 2 * (d * Pow2(s));
      s := s + 1;
    }
  }

  lemma PowMultiple(q: int, e: nat)
    requires q > 0 && e > 0
    ensures Pow(q, e) % q == 0
  {
    MultipleMod(Pow(q, e - 1), q);
  }

  /** A divisor of n is never a strong liar of n. */
  lemma DivisorIsWitness(n: int, q: int, d: nat, s: nat)
    requires 2 <= q < n && n % q == 0 && d % 2 == 1
    ensures !StrongTest(n, q, d, s)
  {
    forall r: nat
      ensures Residue(n, q, d, r) != 1 && Residue(n, q, d, r) != n - 1
    {
      assert d * Pow2(r) >= 1;
      PowersShareDivisor(n, q, d * Pow2(r));
    }
  }

  lemma PowersShareDivisor(n: int, q: int, e: nat)
    requires 2 <= q < n && n % q == 0 && e > 0
    ensures Pow(q, e) % n != 1 && Pow(q, e) % n != n - 1
  {
    var x, r := Pow(q, e), Pow(q, e) % n;
    PowMultiple(q, e);
    MulCong(x / n, x / n, n, 0, q);
    assert r == x + (-1) * ((x / n) * n);
    MulCong(-1, -1, (x / n) * n, 0, q);
    AddCong(x, 0, (-1) * ((x / n) * n), 0, q);
    assert r % q == 0;
    DivModUnique(1, 0, 1, q);
    AddCong(n, 0, -1, -1, q);
    DivModUnique(-1, -1, q - 1, q);
  }

  lemma HasBase(k: int) returns (q: int)
    requires 2 <= k <= 40
    ensures q in BASES && q <= k && k % q == 0
  {
    q := if k % 2 == 0 then 2 else if k % 3 == 0 then 3 else if k % 5 == 0 then 5 else if k % 7 == 0 then 7 else k;
    assert q in BASES;
  }

  lemma ExactBelow41Squared(n: nat)
    requires n < 1681
    ensures Passes(n) <==> IsPrime(n)
  {
    if IsPrime(n) {
      PrimesPass(n);
    } else if n > 3 && Passes(n) {
      var d :| 2 <= d < n && n % d == 0;
      var k := SmallDivisor(n, d);
      var q := HasBase(k);
      DividesTrans(q, k, n);
      var odd, s := Decompose(n - 1);
      DivisorIsWitness(n, q, odd, s);
      assert false;
    }
  }

  lemma Cofactor(n: int, d: int)
    requires 1 < d < n && n % d == 0
    ensures 2 <= n / d < n && n == d * (n / d) && n % (n / d) == 0
  {
    var e := n / d;
    assert n == d * e;
    assert e <= 1 ==> d * e <= d by {
      if e <= 1 {
        MulMono(d, e, 1);
      }
    }
    MulMono(e, 2, d);
    MultipleMod(d, e);
  }

  lemma MulMono(x: int, y: int, z: int)
    ensures x >= 0 && y <= z ==> x * y <= x * z
  {
  }

  lemma SmallDivisor(n: nat, d: nat) returns (k: nat)
    requires 2 <= d < n < 1681 && n % d == 0
    ensures 2 <= k <= 40 && k < n && n % k == 0
  {
    Cofactor(n, d);
    var e := n / d;
    MulMono(d, 41, e);
    k := if d <= 40 then d else e;
  }

  // ---- gcd and Pollard's rho ----

  /** The result divides both numbers, and every common divisor divides it. */
  method GcdLoop(a0: uint64, b0: uint64) returns (a: uint64)
    ensures a == Gcd(a0, b0)
    ensures a0 > 0 || b0 > 0 ==> a > 0 && a0 % a == 0 && b0 % a == 0
    ensures forall d: int | d > 0 && a0 % d == 0 && b0 % d == 0 :: a % d == 0
  {
    var b: uint64 := b0;
    a := a0;
    while b != 0
      invariant Gcd(a, b) == Gcd(a0, b0)
      decreases b
    {
      a, b := b, a % b;
    }
    if a0 > 0 || b0 > 0 {
      GcdDivides(a0, b0);
    }
    forall d: int | d > 0 && a0 % d == 0 && b0 % d == 0
      ensures a % d == 0
    {
      CommonDivisorDividesGcd(a0, b0, d);
    }
  }

  /** The iterated map; the addition wraps at 64 bits before the final reduction. */
  function Rho(x: uint64, c: uint64, n: uint64): (r: uint64)
    requires x < n
    ensures r < n
  {
    HighWordFits(x, x, n);
    ((MulMod64(x, x, n) + c) % TWO64) % n
  }

  /** One step of the code is one step of the recurrence. */
  lemma RhoIsStep(n: uint64, c: nat, i: nat)
    requires n > 2
    ensures Rho(RhoWalk.Value(n, c, i), c % TWO64, n) == RhoWalk.Value(n, c, i + 1)
  {
    var x := RhoWalk.Value(n, c, i);
    HighWordFits(x, x, n);
    AddCong((x * x) % n, (x * x) % n, c % TWO64, c, TWO64);
  }

  /** A step is the square plus c modulo n, as long as the sum fits in 64 bits. */
  lemma RhoIsQuadratic(x: uint64, c: uint64, n: uint64)
    requires x < n && (x * x) % n + c < TWO64
    ensures Rho(x, c, n) == (x * x + c) % n
  {
    hide Mul64, MulMod64;
    HighWordFits(x, x, n);
    SmallSum((x * x) % n, c);
    RhoWalk.ReducedFirst(x * x, c, n);
  }

  lemma SmallSum(y: int, c: int)
    requires 0 <= y + c < TWO64
    ensures (y + c) % TWO64 == y + c
  {
    DivModUnique(y + c, 0, y + c, TWO64);
  }

  /** The inner loop with one constant, for at most `turns` turns: it ends with the divisor the walkers
      first share, or with 1 when the turns run out before that. */
  method MeetWalkers(n: uint64, c: uint64, ghost k: nat, turns: nat) returns (d: uint64, left: nat)
    requires n > 2 && c == k % TWO64
    ensures left <= turns && d >= 1 && n % d == 0
    ensures d == 1 ==> left == 0 && RhoWalk.Apart(n, k, turns)
    ensures d != 1 ==> RhoWalk.Meets(n, k, turns - left) && d == Gcd(RhoWalk.Gap(n, k, turns - left), n)
  {
    hide RhoWalk.Value, RhoWalk.Gap, RhoWalk.Apart, RhoWalk.Meets, Gcd, Rho;
    RhoWalk.Start(n, k);
    var x: uint64, y: uint64 := 2, 2;
    d, left := 1, turns;
    ghost var i := 0;
    while d == 1
      invariant i + left == turns && d >= 1 && n % d == 0
      invariant x == RhoWalk.Value(n, k, i) && y == RhoWalk.Value(n, k, 2 * i)
      invariant d == 1 ==> RhoWalk.Apart(n, k, i)
      invariant d != 1 ==> RhoWalk.Meets(n, k, i) && d == Gcd(RhoWalk.Gap(n, k, i), n)
      decreases left
    {
      if left == 0 {
        return;
      }
      left := left - 1;
      RhoIsStep(n, k, i);
      RhoIsStep(n, k, 2 * i);
      RhoIsStep(n, k, 2 * i + 1);
      RhoWalk.Turn(n, k, i);
      x := Rho(x, c, n);
      y := Rho(Rho(y, c, n), c, n);
      i := i + 1;
      var diff: uint64 := if x > y then x - y else y - x;
      d := GcdLoop(diff, n);
    }
  }

  /** The outer loop: constant after constant until one meets a divisor below n. */
  method TryConstants(n: uint64, fuel: nat) returns (found: bool, d: uint64, ghost meets: seq<nat>, ghost i: nat)
    requires n > 2
    ensures found ==> d > 1 && d != n && n % d == 0
    ensures found ==> RhoWalk.Hit(n, meets, i) && d == Gcd(RhoWalk.Gap(n, |meets| + 1, i), n)
    ensures found ==> RhoWalk.Sum(meets) + i <= fuel
    ensures !found ==> RhoWalk.Wasted(n, meets) && RhoWalk.Apart(n, |meets| + 1, i)
    ensures !found ==> RhoWalk.Sum(meets) + i == fuel
  {
    hide RhoWalk.Gap, RhoWalk.Apart, RhoWalk.Meets, RhoWalk.Wasted, RhoWalk.Sum, Gcd;
    var c: uint64, left := 1, fuel;
    meets := [];
    RhoWalk.NothingWasted(n);
    while true
      invariant c == (|meets| + 1) % TWO64
      invariant RhoWalk.Wasted(n, meets) && RhoWalk.Sum(meets) + left == fuel
      decreases left
    {
      ghost var turns := left;
      d, left := MeetWalkers(n, c, |meets| + 1, left);
      i := turns - left;
      if d == 1 {
        return false, 0, meets, i;
      }
      RhoWalk.MeetsLater(n, |meets| + 1, i);
      if d != n {
        return true, d, meets, i;
      }
      RhoWalk.Waste(n, meets, i);
      NextConstant(|meets| + 1);
      meets := meets + [i];
      c := (c + 1) % TWO64;
    }
  }

  lemma NextConstant(k: nat)
    ensures (k % TWO64 + 1) % TWO64 == (k + 1) % TWO64
  {
    RhoWalk.ReducedFirst(k, 1, TWO64);
  }

  /** Within `fuel` turns of the inner loop the search returns a number exactly when the walks meet a divisor
      below n by then, and that divisor is what it returns. It is a proper one; a prime above 3 has none. */
  method PollardRho(n: uint64, fuel: nat) returns (found: bool, d: uint64)
    requires n > 1
    ensures n % 2 == 0 ==> found && d == 2
    ensures n % 2 != 0 && n % 3 == 0 ==> found && d == 3
    ensures n % 2 != 0 && n % 3 != 0 ==> (found <==> RhoWalk.HitsWithin(n, fuel))
    ensures n % 2 != 0 && n % 3 != 0 && found ==>
      forall meets, i :: RhoWalk.Hit(n, meets, i) ==> d == Gcd(RhoWalk.Gap(n, |meets| + 1, i), n)
    ensures found ==> d > 1 && n % d == 0 && (n > 3 ==> d < n)
    ensures n > 3 && IsPrime(n) ==> !found
  {
    hide RhoWalk.Gap, RhoWalk.Apart, RhoWalk.Meets, RhoWalk.Wasted, RhoWalk.Hit, RhoWalk.Sum, Gcd;
    if n % 2 == 0 {
      return true, 2;
    }
    if n % 3 == 0 {
      return true, 3;
    }
    ghost var meets, i;
    found, d, meets, i := TryConstants(n, fuel);
    if found {
      ProperDivisor(n, d);
      RhoWalk.HitIsAnswer(n, meets, i);
    } else {
      RhoWalk.OutOfTurns(n, meets, i, fuel);
    }
  }

  lemma ProperDivisor(n: uint64, d: uint64)
    requires 1 < d != n && n > 1 && n % d == 0
    ensures d < n
  {
    if d > n {
      DivModUnique(n, 0, n, d);
    }
  }

  // ---- factorize ----

  function Product(s: seq<int>): int {
    if s == [] then 1 else s[0] * Product(s[1..])
  }

  lemma {:induction false} ProductOfConcat(s: seq<int>, t: seq<int>)
    ensures Product(s + t) == Product(s) * Product(t)
  {
    if s == [] {
      assert s + t == t;
    } else {
      assert (s + t)[1..] == s[1..] + t;
      ProductOfConcat(s[1..], t);
      assert s[0] * (Product(s[1..]) * Product(t)) == (s[0] * Product(s[1..])) * Product(t);
    }
  }

  /** Numbers of at least 2, each accepted by the primality test, whose product is n. */
  ghost predicate Factors(s: seq<int>, n: int) {
    Product(s) == n && forall f | f in s :: f >= 2 && Passes(f)
  }

  /** Numbers accepted by the primality test whose product, times a rest, is n. */
  ghost predicate PartFactors(s: seq<int>, rest: int, n: int) {
    rest >= 1 && Product(s) * rest == n && forall f | f in s :: f >= 2 && Passes(f)
  }

  lemma PartOfProduct(s: seq<int>, rest: int, m: int, n: int)
    requires PartFactors(s, rest, m) && n >= 1
    ensures PartFactors(s, rest * n, m * n)
  {
    Regroup(Product(s), rest, n);
    assert rest * n >= 1;
  }

  lemma PartAfterFactors(s: seq<int>, m: int, t: seq<int>, rest: int, n: int)
    requires Factors(s, m) && PartFactors(t, rest, n)
    ensures PartFactors(s + t, rest, m * n)
  {
    hide Passes;
    ProductOfConcat(s, t);
    Regroup(m, Product(t), rest);
  }

  /** Appends the factors of n to a list; ok is false only when `fuel` ran out in the search for a divisor,
      and then what was appended is still part of a factorisation. */
  method Factorize(n: uint64, factors0: seq<int>, fuel: nat)
    returns (ok: bool, factors: seq<int>, ghost added: seq<int>, ghost rest: int)
    ensures factors == factors0 + added
    ensures n < 2 ==> ok && added == []
    ensures n >= 1 ==> PartFactors(added, rest, n) && (ok ==> rest == 1 && Factors(added, n))
    decreases n
  {
    hide Passes;
    factors, added, rest := factors0, [], n;
    if n < 2 {
      return true, factors, added, rest;
    }
    var prime := MillerRabin(n);
    if prime {
      assert [n][1..] == [] && Product([n]) == n * 1;
      return true, factors + [n], [n], 1;
    }
    SmallPass();
    assert n > 3;
    var found, d := PollardRho(n, fuel);
    if !found {
      return false, factors, added, rest;
    }
    Cofactor(n, d);
    ghost var left, right;
    ok, factors, left, rest := Factorize(d, factors, fuel);
    added := left;
    if !ok {
      PartOfProduct(left, rest, d, n / d);
      rest := rest * (n / d);
      return;
    }
    ok, factors, right, rest := Factorize(n / d, factors, fuel);
    added := left + right;
    PartAfterFactors(left, d, right, rest, n / d);
  }

  lemma SmallPass()
    ensures Passes(2) && Passes(3)
  {
  }

  /** Every prime divisor of n divides one of the listed factors. */
  lemma {:induction false} PrimeDivisorIsListed(s: seq<int>, p: int) returns (i: nat)
    requires IsPrime(p) && (forall i | 0 <= i < |s| :: s[i] >= 2) && Product(s) % p == 0
    ensures i < |s| && s[i] % p == 0
  {
    if s == [] {
      DivModUnique(1, 0, 1, p);
      assert false;
    }
    ProductPositive(s[1..]);
    EuclidsLemma(p, s[0], Product(s[1..]));
    if s[0] % p == 0 {
      i := 0;
    } else {
      var j := PrimeDivisorIsListed(s[1..], p);
      i := j + 1;
    }
  }

  lemma {:induction false} ProductPositive(s: seq<int>)
    requires forall i | 0 <= i < |s| :: s[i] >= 2
    ensures Product(s) >= 1
  {
    if s != [] {
      ProductPositive(s[1..]);
      assert s[0] * Product(s[1..]) >= 1;
    }
  }
}
