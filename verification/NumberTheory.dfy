/** The number theory behind the factor utility: divisibility, Bezout, Euclid's lemma, Fermat's little theorem. */
module NumberTheory {

  function Pow(b: int, e: nat): int {
    if e == 0 then 1 else b * Pow(b, e - 1)
  }

  ghost predicate IsPrime(p: int) {
    p >= 2 && forall d | 2 <= d < p :: p % d != 0
  }

  // ---- Division ----

  lemma DivModUnique(x: int, q: int, r: int, m: int)
    requires 0 <= r < m && x == q * m + r
    ensures x / m == q && x % m == r
  {
    var e := q - x / m;
    assert e * m == x % m - r;
    assert e >= 1 ==> e * m >= m;
    assert e <= -1 ==> e * m <= -m;
  }

  lemma ModShift(x: int, k: int, m: int)
    requires m > 0
    ensures (x + k * m) % m == x % m
  {
    assert x + k * m == (x / m + k) * m + x % m;
    DivModUnique(x + k * m, x / m + k, x % m, m);
  }

  lemma MulMod(a: int, b: int, m: int)
    requires m > 0
    ensures (a * b) % m == ((a % m) * (b % m)) % m
  {
    var qa, ra, qb, rb := a / m, a % m, b / m, b % m;
    calc {
      a * b;
      (qa * m + ra) * (qb * m + rb);
      ra * rb + (qa * (qb * m + rb) + ra * qb) * m;
    }
    ModShift(ra * rb, qa * (qb * m + rb) + ra * qb, m);
  }

  /** Equal factors stay equal modulo m under multiplication. */
  lemma MulCong(a: int, a': int, b: int, b': int, m: int)
    requires m > 0 && a % m == a' % m && b % m == b' % m
    ensures (a * b) % m == (a' * b') % m
  {
    MulMod(a, b, m);
    MulMod(a', b', m);
  }

  lemma AddCong(a: int, a': int, b: int, b': int, m: int)
    requires m > 0 && a % m == a' % m && b % m == b' % m
    ensures (a + b) % m == (a' + b') % m
  {
    var k := a / m - a' / m + b / m - b' / m;
    assert a + b == a' + b' + k * m;
    ModShift(a' + b', k, m);
  }

  lemma ModMod(a: int, m: int)
    requires m > 0
    ensures (a % m) % m == a % m
  {
  }

  lemma MultipleMod(k: int, m: int)
    requires m > 0
    ensures (k * m) % m == 0 && (m * k) % m == 0
  {
    ModShift(0, k, m);
  }

  lemma DividesTrans(d: int, m: int, n: int)
    requires d > 0 && m > 0 && m % d == 0 && n % m == 0
    ensures n % d == 0
  {
    var j, k := m / d, n / m;
    assert n == (k * j) * d by {
      assert m == j * d && n == k * m;
      assert k * (j * d) == (k * j) * d;
    }
    MultipleMod(k * j, d);
  }

  // ---- Greatest common divisor ----

  function Gcd(a: nat, b: nat): nat
    decreases b
  {
    if b == 0 then a else Gcd(b, a % b)
  }

  lemma {:induction false} Bezout(a: nat, b: nat) returns (u: int, v: int)
    ensures u * a + v * b == Gcd(a, b)
    decreases b
  {
    if b == 0 {
      u, v := 1, 0;
    } else {
      var s, t := Bezout(b, a % b);
      u, v := t, s - t * (a / b);
      calc {
        u * a + v * b;
        t * a + (s - t * (a / b)) * b;
        t * (a - (a / b) * b) + s * b;
        { assert a - (a / b) * b == a % b; }
        s * b + t * (a % b);
        Gcd(a, b);
      }
    }
  }

  lemma {:induction false} GcdDivides(a: nat, b: nat)
    requires a > 0 || b > 0
    ensures Gcd(a, b) > 0 && a % Gcd(a, b) == 0 && b % Gcd(a, b) == 0
    decreases b
  {
    if b == 0 {
      MultipleMod(1, a);
    } else {
      var q, r := a / b, a % b;
      assert a == q * b + r;
      GcdDivides(b, r);
      DividesCombination(q, b, r, Gcd(b, r));
    }
  }

  lemma DividesCombination(q: int, b: int, r: int, g: int)
    requires g > 0 && b % g == 0 && r % g == 0
    ensures (q * b + r) % g == 0
  {
    MulCong(q, q, b, 0, g);
    AddCong(q * b, 0, r, 0, g);
  }

  lemma CommonDivisorDividesGcd(a: nat, b: nat, d: nat)
    requires d > 0 && a % d == 0 && b % d == 0
    ensures Gcd(a, b) % d == 0
  {
    var u, v := Bezout(a, b);
    MulCong(u, u, a, 0, d);
    MulCong(v, v, b, 0, d);
    AddCong(u * a, 0, v * b, 0, d);
  }

  lemma PrimeDivisors(p: int, d: int)
    requires IsPrime(p) && d > 0 && p % d == 0
    ensures d == 1 || d == p
  {
    if d > p {
      assert p == 0 * d + p;
      DivModUnique(p, 0, p, d);
    }
  }

  lemma EuclidsLemma(p: int, a: nat, b: nat)
    requires IsPrime(p) && (a * b) % p == 0
    ensures a % p == 0 || b % p == 0
  {
    var g := Gcd(p, a);
    GcdDivides(p, a);
    PrimeDivisors(p, g);
    if g == 1 {
      var u, v := Bezout(p, a);
      assert b == (u * b) * p + v * (a * b) by {
        assert (u * p + v * a) * b == b;
      }
      MultipleMod(u * b, p);
      MulCong(v, v, a * b, 0, p);
      AddCong((u * b) * p, 0, v * (a * b), 0, p);
    }
  }

  // ---- Powers ----

  lemma {:induction false} PowAdd(b: int, e: nat, f: nat)
    ensures Pow(b, e + f) == Pow(b, e) * Pow(b, f)
  {
    if e > 0 {
      PowAdd(b, e - 1, f);
      assert b * (Pow(b, e - 1) * Pow(b, f)) == (b * Pow(b, e - 1)) * Pow(b, f);
    }
  }

  lemma {:induction false} PowCong(b: int, b': int, e: nat, m: int)
    requires m > 0 && b % m == b' % m
    ensures Pow(b, e) % m == Pow(b', e) % m
  {
    if e > 0 {
      PowCong(b, b', e - 1, m);
      MulCong(b, b', Pow(b, e - 1), Pow(b', e - 1), m);
    }
  }

  lemma {:induction false} PowPositive(b: int, e: nat)
    requires b > 0
    ensures Pow(b, e) > 0
  {
    if e > 0 {
      PowPositive(b, e - 1);
    }
  }

  // ---- Binomial coefficients and Fermat's little theorem ----

  function Choose(n: nat, k: nat): nat {
    if k == 0 then 1 else if n == 0 then 0 else Choose(n - 1, k - 1) + Choose(n - 1, k)
  }

  lemma {:induction false} ChooseAbove(n: nat, k: nat)
    requires k > n
    ensures Choose(n, k) == 0
  {
    if n > 0 {
      ChooseAbove(n - 1, k - 1);
      ChooseAbove(n - 1, k);
    }
  }

  lemma {:induction false} ChooseSelf(n: nat)
    ensures Choose(n, n) == 1
  {
    if n > 0 {
      ChooseSelf(n - 1);
      ChooseAbove(n - 1, n);
    }
  }

  lemma AbsorptionAlgebra(n: int, k: int, c: int, d: int, e: int, f: int)
    requires (k - 1) * c == (n - 1) * e && k * d == (n - 1) * f && c == e + f
    ensures k * (c + d) == n * c
  {
    assert (n - 1) * c == (n - 1) * e + (n - 1) * f;
  }

  lemma ChooseStep(n: nat, k: nat)
    requires n > 0 && k > 0
    ensures Choose(n, k) == Choose(n - 1, k - 1) + Choose(n - 1, k)
  {
  }

  lemma {:induction false} Absorption(n: nat, k: nat)
    requires n > 0 && k > 0
    ensures k * Choose(n, k) == n * Choose(n - 1, k - 1)
  {
    hide Choose;
    ChooseStep(n, k);
    if n == 1 {
      AbsorptionOfOne(k);
    } else {
      Absorption(n - 1, k);
      if k == 1 {
        ChooseNone(n - 1);
        ChooseNone(n - 2);
      } else {
        Absorption(n - 1, k - 1);
        ChooseStep(n - 1, k - 1);
        AbsorptionAlgebra(n, k, Choose(n - 1, k - 1), Choose(n - 1, k), Choose(n - 2, k - 2), Choose(n - 2, k - 1));
      }
    }
  }

  lemma ChooseNone(n: nat)
    ensures Choose(n, 0) == 1
  {
  }

  lemma AbsorptionOfOne(k: nat)
    requires k > 0
    ensures k * Choose(1, k) == 1 * Choose(0, k - 1)
  {
    if k > 1 {
      ChooseAbove(1, k);
      ChooseAbove(0, k - 1);
    } else {
      assert Choose(1, 1) == Choose(0, 0) + Choose(0, 1);
    }
  }

  lemma PrimeDividesChoose(p: int, k: nat)
    requires IsPrime(p) && 0 < k < p
    ensures Choose(p, k) % p == 0
  {
    Absorption(p, k);
    MultipleMod(Choose(p - 1, k - 1), p);
    EuclidsLemma(p, k, Choose(p, k));
    DivModUnique(k, 0, k, p);
  }

  /** The first k terms of the binomial expansion of (a + 1) to the n. */
  function Terms(n: nat, a: int, k: nat): int {
    if k == 0 then 0 else Terms(n, a, k - 1) + Choose(n, k - 1) * Pow(a, k - 1)
  }

  lemma TermsStep(n: nat, a: int, k: nat)
    ensures Terms(n, a, k + 1) == Terms(n, a, k) + Choose(n, k) * Pow(a, k)
  {
  }

  lemma PascalAlgebra(a: int, t0: int, t1: int, c: int, d: int, p: int)
    requires t1 == t0 + c * p
    ensures (t1 + a * t0) + (c + d) * (a * p) == (t1 + d * (a * p)) + a * t1
  {
    assert (c + d) * (a * p) == d * (a * p) + a * (c * p);
    assert a * t1 == a * t0 + a * (c * p);
  }

  lemma {:induction false} PascalTerms(n: nat, a: int, k: nat)
    ensures Terms(n + 1, a, k + 1) == Terms(n, a, k + 1) + a * Terms(n, a, k)
  {
    hide Terms, Choose, Pow;
    TermsStep(n + 1, a, k);
    TermsStep(n, a, k);
    if k == 0 {
      NoTerms(n, a);
    } else {
      PascalTerms(n, a, k - 1);
      TermsStep(n, a, k - 1);
      ChooseStep(n + 1, k);
      PowStep(a, k);
      PascalAlgebra(a, Terms(n, a, k - 1), Terms(n, a, k), Choose(n, k - 1), Choose(n, k), Pow(a, k - 1));
    }
  }

  lemma NoTerms(n: nat, a: int)
    ensures Terms(n, a, 0) == 0 && Terms(n + 1, a, 0) == 0
    ensures Choose(n, 0) == 1 && Choose(n + 1, 0) == 1 && Pow(a, 0) == 1
  {
  }

  lemma PowStep(a: int, k: nat)
    requires k > 0
    ensures Pow(a, k) == a * Pow(a, k - 1)
  {
  }

  lemma {:induction false} BinomialTheorem(n: nat, a: int)
    ensures Pow(a + 1, n) == Terms(n, a, n + 1)
  {
    hide Terms, Choose, Pow;
    if n == 0 {
      NoTerms(0, a);
      NoTerms(0, a + 1);
      TermsStep(0, a, 0);
    } else {
      BinomialTheorem(n - 1, a);
      PowStep(a + 1, n);
      PascalTerms(n - 1, a, n);
      ChooseAbove(n - 1, n);
      TermsStep(n - 1, a, n);
    }
  }

  lemma {:induction false} InnerTermsVanish(p: int, a: int, k: nat)
    requires IsPrime(p) && 1 <= k <= p
    ensures Terms(p, a, k) % p == 1
  {
    hide Terms, Choose, Pow;
    DivModUnique(1, 0, 1, p);
    TermsStep(p, a, k - 1);
    if k == 1 {
      NoTerms(p, a);
    } else {
      InnerTermsVanish(p, a, k - 1);
      PrimeDividesChoose(p, k - 1);
      MulCong(Choose(p, k - 1), 0, Pow(a, k - 1), Pow(a, k - 1), p);
      AddCong(Terms(p, a, k - 1), 1, Choose(p, k - 1) * Pow(a, k - 1), 0, p);
    }
  }

  /** The binomial theorem for (a - 1) + 1, with its last term apart. */
  lemma PowerOfNext(p: int, a: nat)
    requires p >= 1 && a > 0
    ensures Pow(a, p) == Terms(p, a - 1, p) + Pow(a - 1, p)
  {
    BinomialTheorem(p, a - 1);
    ChooseSelf(p);
  }

  lemma PowerOfZero(p: int)
    requires p >= 1
    ensures Pow(0, p) == 0
  {
    assert Pow(0, p) == 0 * Pow(0, p - 1);
  }

  lemma {:induction false} FermatAny(p: int, a: nat)
    requires IsPrime(p)
    ensures Pow(a, p) % p == a % p
  {
    hide Pow, Terms, Choose;
    if a == 0 {
      PowerOfZero(p);
    } else {
      FermatAny(p, a - 1);
      PowerOfNext(p, a);
      InnerTermsVanish(p, a - 1, p);
      DivModUnique(1, 0, 1, p);
      AddCong(Terms(p, a - 1, p), 1, Pow(a - 1, p), a - 1, p);
    }
  }

  /** Fermat's little theorem. */
  lemma Fermat(p: int, a: nat)
    requires IsPrime(p) && a % p != 0
    ensures Pow(a, p - 1) % p == 1
  {
    FermatAny(p, a);
    var x := Pow(a, p - 1);
    PowPositive(a, p - 1);
    assert Pow(a, p) == a * x;
    hide Pow;
    Cancelled(p, a, x);
    EuclidsLemma(p, a, x - 1);
    DivModUnique(1, 0, 1, p);
    AddCong(x - 1, 0, 1, 1, p);
  }

  lemma Cancelled(p: int, a: int, x: int)
    requires p > 0 && (a * x) % p == a % p
    ensures (a * (x - 1)) % p == 0
  {
    OneLess(a, x);
    DifferenceMod(a * x, a, p);
  }

  lemma OneLess(a: int, x: int)
    ensures a * (x - 1) == a * x - a
  {
  }

  lemma DifferenceMod(y: int, a: int, p: int)
    requires p > 0 && y % p == a % p
    ensures (y - a) % p == 0
  {
    var k := y / p - a / p;
    assert y - a == k * p;
    MultipleMod(k, p);
  }

  /** Modulo a prime, 1 has no square roots but 1 and -1. */
  lemma SquareRootsOfOne(p: int, x: nat)
    requires IsPrime(p) && x < p && (x * x) % p == 1
    ensures x == 1 || x == p - 1
  {
    if x > 0 {
      SquareMinusOne(p, x);
      EuclidsLemma(p, x - 1, x + 1);
      SmallMultiple(p, x - 1);
      SmallMultiple(p, x + 1);
    }
  }

  lemma SquareMinusOne(p: int, x: nat)
    requires p > 1 && (x * x) % p == 1
    ensures ((x - 1) * (x + 1)) % p == 0
  {
    assert (x - 1) * (x + 1) == x * x - 1;
    DivModUnique(1, 0, 1, p);
    AddCong(x * x, 1, -1, -1, p);
  }

  lemma SmallMultiple(p: int, x: int)
    requires 0 <= x <= p && p > 0
    ensures x % p == 0 ==> x == 0 || x == p
  {
    if x < p {
      DivModUnique(x, 0, x, p);
    }
  }
}
