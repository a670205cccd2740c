/** Divisors, primes and Fermat's little theorem. */
module NumberTheory {
  import opened Arith

  // ----- divisors

  ghost predicate Divides(d: int, n: int)
    requires 0 < d
  {
    Rem(n, d) == 0
  }

  lemma DividesWitness(d: int, n: int) returns (k: int)
    requires 0 < d && Divides(d, n)
    ensures n == k * d
  {
    DivMod(n, d);
    k := n / d;
  }

  lemma DividesIntro(d: int, n: int, k: int)
    requires 0 < d && n == k * d
    ensures Divides(d, n)
  {
    DivModUnique(n, d, k, 0);
  }

  lemma DividesSum(d: int, m: int, n: int)
    requires 0 < d && Divides(d, m)
    ensures Divides(d, n) <==> Divides(d, m + n)
    ensures Divides(d, n) <==> Divides(d, n - m)
  {
    hide Rem;
    RemSmall(0, d);
    RemAdd(m, 0, n, n, d);
    RemAdd(n, n, m, 0, d);
  }

  lemma DividesTimes(d: int, m: int, k: int)
    requires 0 < d && Divides(d, m)
    ensures Divides(d, m * k) && Divides(d, k * m)
  {
    hide Divides;
    var q := DividesWitness(d, m);
    assert m * k == (q * k) * d;
    assert k * m == m * k;
    DividesIntro(d, m * k, q * k);
  }

  lemma DivisorBound(d: int, n: int)
    requires 0 < d && 0 < n && Divides(d, n)
    ensures d <= n
  {
    var k := DividesWitness(d, n);
    if k <= 0 {
      MulMono(k, 0, d);
    } else {
      MulMono(1, k, d);
    }
  }

  /** Greatest common divisor, by Euclid's algorithm. */
  function Gcd(a: nat, b: nat): (g: nat)
    ensures a + b > 0 ==> g > 0
    decreases b
  {
    if b == 0 then a else Gcd(b, a % b)
  }

  /** The common divisors of two numbers are the divisors of their greatest common divisor. */
  lemma {:induction false} GcdDivisors(a: nat, b: nat, d: int)
    requires 0 < d
    ensures Divides(d, a) && Divides(d, b) <==> Divides(d, Gcd(a, b))
    decreases b
  {
    if b == 0 {
      RemSmall(0, d);
    } else {
      GcdDivisors(b, a % b, d);
      DivMod(a, b);
      if Divides(d, b) {
        DividesTimes(d, b, a / b);
        DividesSum(d, a / b * b, a);
      }
    }
  }

  lemma {:induction false} Bezout(a: nat, b: nat) returns (s: int, t: int)
    ensures s * a + t * b == Gcd(a, b)
    decreases b
  {
    if b == 0 {
      s, t := 1, 0;
    } else {
      var s', t' := Bezout(b, a % b);
      DivMod(a, b);
      s, t := t', s' - t' * (a / b);
      assert t' * a == t' * (a / b * b) + t' * (a % b) by {
        assert t' * (a / b * b + a % b) == t' * (a / b * b) + t' * (a % b);
      }
      assert t' * (a / b * b) == (t' * (a / b)) * b;
      MulDiff(s', t' * (a / b), b);
    }
  }

  /** Pairs with the same common divisors have the same greatest common divisor. */
  lemma SameGcd(a: nat, b: nat, a': nat, b': nat)
    requires a + b > 0 && a' + b' > 0
    requires forall d: int :: 0 < d ==> (Divides(d, a) && Divides(d, b) <==> Divides(d, a') && Divides(d, b'))
    ensures Gcd(a, b) == Gcd(a', b')
  {
    hide Divides, Gcd;
    var g, g' := Gcd(a, b), Gcd(a', b');
    assert Divides(g, g) by { DividesIntro(g, g, 1); }
    assert Divides(g', g') by { DividesIntro(g', g', 1); }
    GcdDivisors(a, b, g);
    GcdDivisors(a', b', g);
    GcdDivisors(a, b, g');
    GcdDivisors(a', b', g');
    DivisorBound(g, g');
    DivisorBound(g', g);
  }

  lemma GcdSymmetric(a: nat, b: nat)
    requires a + b > 0
    ensures Gcd(a, b) == Gcd(b, a)
  {
    hide Divides, Gcd;
    SameGcd(a, b, b, a);
  }

  lemma GcdSubtract(a: nat, b: nat)
    requires a >= b && b > 0
    ensures Gcd(a, b) == Gcd(a - b, b)
  {
    hide Divides, Gcd;
    forall d: int | 0 < d
      ensures Divides(d, a) && Divides(d, b) <==> Divides(d, a - b) && Divides(d, b)
    {
      if Divides(d, b) {
        DividesSum(d, b, a);
      }
    }
    SameGcd(a, b, a - b, b);
  }

  /** A factor of two in one number does not matter when the other one is odd. */
  lemma GcdHalve(h: nat, b: nat)
    requires b % 2 == 1
    ensures Gcd(2 * h, b) == Gcd(h, b)
  {
    hide Divides, Gcd;
    forall d: int | 0 < d
      ensures Divides(d, 2 * h) && Divides(d, b) <==> Divides(d, h) && Divides(d, b)
    {
      if Divides(d, h) {
        DividesTimes(d, h, 2);
      }
      if Divides(d, 2 * h) && Divides(d, b) {
        OddDivisor(d, b, h);
      }
    }
    SameGcd(2 * h, b, h, b);
  }

  lemma OddDivisor(d: int, b: nat, h: nat)
    requires 0 < d && Divides(d, b) && Divides(d, 2 * h) && b % 2 == 1
    ensures Divides(d, h)
  {
    hide Divides;
    // h == b * h - 2 * h * (b / 2)
    DividesTimes(d, b, h);
    DividesTimes(d, 2 * h, b / 2);
    assert b * h == 2 * h * (b / 2) + h by {
      assert b == 2 * (b / 2) + 1;
      assert (2 * (b / 2) + 1) * h == 2 * h * (b / 2) + h;
    }
    DividesSum(d, 2 * h * (b / 2), b * h);
  }

  lemma {:induction false} GcdTwice(a: nat, b: nat)
    ensures Gcd(2 * a, 2 * b) == 2 * Gcd(a, b)
    decreases b
  {
    if b > 0 {
      GcdTwice(b, a % b);
      DivModUnique(2 * a, 2 * b, a / b, 2 * (a % b));
    }
  }

  /** The greatest common divisor divides both numbers. */
  lemma GcdDivides(a: nat, b: nat)
    requires a + b > 0
    ensures Divides(Gcd(a, b), a) && Divides(Gcd(a, b), b)
  {
    hide Gcd, Divides;
    var g := Gcd(a, b);
    DividesIntro(g, g, 1);
    GcdDivisors(a, b, g);
  }

  /** A common divisor of coprime numbers is one. */
  lemma OnlyOneDivides(a: nat, b: nat, d: int)
    requires Gcd(a, b) == 1 && 0 < d && Divides(d, a) && Divides(d, b)
    ensures d == 1
  {
    hide Gcd, Divides;
    GcdDivisors(a, b, d);
    DivisorBound(d, 1);
  }

  /** A product is coprime to f just when both factors are. */
  lemma CoprimeProduct(a: nat, b: nat, f: nat)
    requires f > 0
    ensures 0 <= a * b && (Gcd(a * b, f) == 1 <==> Gcd(a, f) == 1 && Gcd(b, f) == 1)
  {
    hide Gcd, Divides;
    MulMono(0, a, b);
    if Gcd(a * b, f) == 1 {
      FactorCoprime(a, b, f);
      assert a * b == b * a;
      FactorCoprime(b, a, f);
    } else if Gcd(a, f) == 1 {
      var g := Gcd(a * b, f);
      GcdDivides(a * b, f);
      DividesCofactor(a, b, f, g);
      if Gcd(b, f) == 1 {
        OnlyOneDivides(b, f, g);
      }
    }
  }

  lemma FactorCoprime(a: nat, b: nat, f: nat)
    requires f > 0 && 0 <= a * b && Gcd(a * b, f) == 1
    ensures Gcd(a, f) == 1
  {
    hide Gcd, Divides;
    var d := Gcd(a, f);
    GcdDivides(a, f);
    DividesTimes(d, a, b);
    assert b * a == a * b;
    OnlyOneDivides(a * b, f, d);
  }

  /** What divides f and a product divides the second factor, when the first one is coprime to f. */
  lemma DividesCofactor(a: nat, b: nat, f: nat, g: int)
    requires 0 < g && Gcd(a, f) == 1 && Divides(g, a * b) && Divides(g, f)
    ensures Divides(g, b)
  {
    hide Gcd, Divides;
    var u, v := Bezout(a, f);
    assert b == u * (a * b) + (v * b) * f by {
      MulSum(u * a, v * f, b);
      MulAssoc(u, a, b);
      assert (v * f) * b == (v * b) * f;
    }
    DividesTimes(g, a * b, u);
    DividesTimes(g, f, v * b);
    DividesSum(g, u * (a * b), (v * b) * f);
  }

  lemma CoprimeToTwo(f: nat)
    requires f > 0
    ensures Gcd(2, f) == 1 <==> f % 2 == 1
  {
    GcdSymmetric(2, f);
    assert Gcd(f, 2) == Gcd(2, f % 2);
    assert Gcd(2, 0) == 2 && Gcd(2, 1) == Gcd(1, 0) == 1;
  }

  /** A number that is one more than a multiple is coprime to it. */
  lemma OneMoreCoprime(n: nat, k: nat)
    requires n > 0
    ensures 0 <= k * n && Gcd(k * n + 1, n) == 1
  {
    hide Gcd, Divides;
    MulMono(0, k, n);
    var m := k * n;
    var g := Gcd(m + 1, n);
    GcdDivides(m + 1, n);
    DividesTimes(g, n, k);
    DividesSum(g, m, 1);
    DivisorBound(g, 1);
  }

  // ----- primes

  ghost predicate IsPrime(p: int) {
    2 <= p && forall d :: 2 <= d < p ==> Rem(p, d) != 0
  }

  /** A number above one is prime just when it is no product of smaller numbers. */
  lemma FactorsOf(n: nat) returns (a: nat, b: nat)
    requires n > 1 && !IsPrime(n)
    ensures 1 < a < n && 1 < b < n && a * b == n
  {
    a :| 2 <= a < n && Rem(n, a) == 0;
    var k := DividesWitness(a, n);
    assert k > 1 by {
      if k <= 1 {
        MulMono(k, 1, a);
      }
    }
    MulStep(1, a, k);
    b := k;
    assert k * a == a * k;
  }

  lemma PrimeProduct(a: nat, b: nat)
    requires IsPrime(a * b)
    ensures a == 1 || b == 1
  {
    hide Rem;
    if a > 1 && b > 1 {
      MulStep(1, b, a);
      assert b * a == a * b;
      DividesIntro(a, a * b, b);
    }
  }

  lemma PrimeGcd(p: int, a: nat)
    requires IsPrime(p) && !Divides(p, a)
    ensures Gcd(p, a) == 1
  {
    hide Gcd;
    var g := Gcd(p, a);
    assert Divides(g, g) by { DividesIntro(g, g, 1); }
    GcdDivisors(p, a, g);
    DivisorBound(g, p);
    if g == p {
      assert false;
    }
  }

  /** A prime that divides a product divides a factor. */
  lemma EuclidsLemma(p: int, a: nat, b: int)
    requires IsPrime(p) && Divides(p, a * b)
    ensures Divides(p, a) || Divides(p, b)
  {
    hide Gcd, Divides;
    if !Divides(p, a) {
      PrimeGcd(p, a);
      var s, t := Bezout(p, a);
      DividesTimes(p, a * b, t);
      DividesIntro(p, (s * b) * p, s * b);
      assert b == (s * b) * p + t * (a * b) by {
        assert (s * p + t * a) * b == (s * b) * p + t * (a * b);
      }
      DividesSum(p, (s * b) * p, t * (a * b));
    }
  }

  /** The square roots of one modulo a prime are one and minus one. */
  lemma RootsOfOne(p: int, x: nat)
    requires IsPrime(p) && x < p && Rem(x * x, p) == 1
    ensures x == 1 || x == p - 1
  {
    hide Rem;
    RemSmall(0, p);
    RemSmall(1, p);
    if x > 0 {
      assert (x - 1) * (x + 1) == x * x - 1;
      RemAdd(x * x, 1, 1, 1, p);
      EuclidsLemma(p, x - 1, x + 1);
      if Divides(p, x - 1) {
        SmallMultiple(p, x - 1);
      } else {
        SmallMultiple(p, x + 1);
      }
    }
  }

  lemma SmallMultiple(p: int, n: nat)
    requires 0 < p && n <= p && Divides(p, n)
    ensures n == 0 || n == p
  {
    if 0 < n {
      DivisorBound(p, n);
    }
  }

  // ----- binomial coefficients

  function Choose(n: nat, k: nat): nat {
    if k == 0 then 1 else if n == 0 then 0 else Choose(n - 1, k - 1) + Choose(n - 1, k)
  }

  lemma {:induction false} ChooseBeyond(n: nat, k: nat)
    requires k > n
    ensures Choose(n, k) == 0
  {
    if n > 0 {
      ChooseBeyond(n - 1, k - 1);
      ChooseBeyond(n - 1, k);
    }
  }

  lemma {:induction false} ChooseSelf(n: nat)
    ensures Choose(n, n) == 1
  {
    if n > 0 {
      ChooseSelf(n - 1);
      ChooseBeyond(n - 1, n);
    }
  }

  lemma {:induction false} Absorption(n: nat, k: nat)
    requires 0 < n && 0 < k
    ensures k * Choose(n, k) == n * Choose(n - 1, k - 1)
  {
    hide Choose;
    ChooseStep(n, k);
    if n == 1 {
      ChooseZero(0, 0);
      if k > 1 {
        ChooseBeyond(1, k);
        ChooseBeyond(0, k - 1);
      } else {
        ChooseBeyond(0, 1);
      }
    } else {
      var a, b := Choose(n - 1, k - 1), Choose(n - 1, k);
      Absorption(n - 1, k);
      if k == 1 {
        ChooseZero(n - 2, n - 1);
      } else {
        Absorption(n - 1, k - 1);
        ChooseStep(n - 1, k - 1);
        AbsorptionStep(n, k, Choose(n - 2, k - 2), Choose(n - 2, k - 1), a, b);
      }
    }
  }

  lemma ChooseStep(n: nat, k: nat)
    requires 0 < n && 0 < k
    ensures Choose(n, k) == Choose(n - 1, k - 1) + Choose(n - 1, k)
  {
  }

  lemma ChooseZero(n: nat, m: nat)
    ensures Choose(n, 0) == 1 && Choose(m, 0) == 1
  {
  }

  lemma AbsorptionStep(n: int, k: int, c: int, d: int, a: int, b: int)
    requires a == c + d
    requires k * b == (n - 1) * d && (k - 1) * a == (n - 1) * c
    ensures k * (a + b) == n * a
  {
    MulSum(c, d, n - 1);
    assert (n - 1) * a == (n - 1) * c + (n - 1) * d by {
      assert (n - 1) * (c + d) == (n - 1) * c + (n - 1) * d;
    }
    MulDiff(k, 1, a);
    MulDiff(n, 1, a);
    assert k * (a + b) == k * a + k * b;
  }

  /** A prime divides its inner binomial coefficients. */
  lemma ChoosePrime(p: int, k: nat)
    requires IsPrime(p) && 0 < k < p
    ensures Divides(p, Choose(p, k))
  {
    hide Divides, Choose;
    Absorption(p, k);
    var c := Choose(p - 1, k - 1);
    assert p * c == c * p;
    DividesIntro(p, k * Choose(p, k), c);
    EuclidsLemma(p, k, Choose(p, k));
    if Divides(p, k) {
      DivisorBound(p, k);
    }
  }

  /** The first m + 1 terms of the expansion of (1 + x)^n. */
  function Expansion(n: nat, m: nat, x: nat): nat {
    if m == 0 then 1 else Expansion(n, m - 1, x) + Choose(n, m) * PowNat(x, m)
  }

  function PowNat(x: nat, n: nat): (p: nat)
    ensures p == Pow(x, n)
  {
    if n == 0 then 1 else x * PowNat(x, n - 1)
  }

  lemma {:induction false} PascalSum(n: nat, m: nat, x: nat)
    requires 0 < m
    ensures Expansion(n + 1, m, x) == Expansion(n, m, x) + x * Expansion(n, m - 1, x)
  {
    hide Choose, Expansion, PowNat;
    ChooseStep(n + 1, m);
    ExpansionStep(n + 1, m, x);
    ExpansionStep(n, m, x);
    if m == 1 {
      ChooseZero(n, n + 1);
      ExpansionZero(n, n + 1, x);
      PowStep(x, 0);
      PascalStep(Choose(n, 0), Choose(n, 1), 1, x, x, 0, 1, 0);
    } else {
      PascalSum(n, m - 1, x);
      ExpansionStep(n, m - 1, x);
      PowStep(x, m - 1);
      PascalStep(Choose(n, m - 1), Choose(n, m), PowNat(x, m - 1), PowNat(x, m), x,
                 Expansion(n, m - 2, x), Expansion(n, m - 1, x), Expansion(n, m - 2, x));
    }
  }

  lemma ExpansionStep(n: nat, m: nat, x: nat)
    requires 0 < m
    ensures Expansion(n, m, x) == Expansion(n, m - 1, x) + Choose(n, m) * PowNat(x, m)
  {
  }

  lemma ExpansionZero(n: nat, n': nat, x: nat)
    ensures Expansion(n, 0, x) == 1 && Expansion(n', 0, x) == 1
  {
  }

  lemma PowStep(x: nat, m: nat)
    ensures PowNat(x, m + 1) == x * PowNat(x, m) && PowNat(x, 0) == 1
  {
  }

  /** The term of degree m, and the one of degree m - 1 moved up by a factor x. */
  lemma PascalStep(c: int, d: int, p: int, q: int, x: int, e2: int, e1: int, e: int)
    requires q == x * p && e2 == e && e1 == e2 + c * p
    ensures (c + d) * q + x * e == d * q + x * e1
  {
    MulSum(c, d, q);
    assert c * q == x * (c * p);
    assert x * e1 == x * e2 + x * (c * p);
  }

  lemma {:induction false} BinomialTheorem(n: nat, x: nat)
    ensures Expansion(n, n, x) == Pow(1 + x, n)
  {
    if n > 0 {
      BinomialTheorem(n - 1, x);
      PascalSum(n - 1, n, x);
      ChooseBeyond(n - 1, n);
      assert Expansion(n - 1, n, x) == Expansion(n - 1, n - 1, x) + 0 * PowNat(x, n);
      MulSum(1, x, Pow(1 + x, n - 1));
    }
  }

  // ----- Fermat's little theorem

  /** Modulo a prime the inner terms of the expansion vanish. */
  lemma {:induction false} InnerTermsVanish(p: int, m: nat, x: nat)
    requires IsPrime(p) && m < p
    ensures Rem(Expansion(p, m, x), p) == 1
  {
    hide Choose, Rem, IsPrime;
    if m == 0 {
      OneRemains(p);
    } else {
      InnerTermsVanish(p, m - 1, x);
      ChoosePrime(p, m);
      DividesTimes(p, Choose(p, m), PowNat(x, m));
      DropMultiple(Expansion(p, m - 1, x), Choose(p, m) * PowNat(x, m), p);
    }
  }

  lemma OneRemains(p: int)
    requires IsPrime(p)
    ensures Rem(1, p) == 1
  {
    RemSmall(1, p);
  }

  lemma DropMultiple(a: int, b: int, p: int)
    requires 0 < p && Divides(p, b)
    ensures Rem(a + b, p) == Rem(a, p)
  {
    hide Rem;
    RemSmall(0, p);
    RemAdd(a, a, b, 0, p);
  }

  lemma {:induction false} Fermat(p: int, x: nat)
    requires IsPrime(p)
    ensures Rem(Pow(x, p), p) == Rem(x, p)
  {
    hide Rem, Choose, IsPrime;
    if x == 0 {
      PrimePower(p, x);
    } else {
      var y := x - 1;
      Fermat(p, y);
      PrimePower(p, y);
      BinomialTheorem(p, y);
      InnerTermsVanish(p, p - 1, y);
      ChooseSelf(p);
      OneRemains(p);
      RemAdd(Expansion(p, p - 1, y), 1, Pow(y, p), y, p);
    }
  }

  lemma PrimePower(p: int, x: nat)
    requires IsPrime(p)
    ensures 0 < p && Pow(x, p) == x * Pow(x, p - 1)
  {
  }

  /** The power p - 1 of a number that the prime p does not divide. */
  lemma FermatInverse(p: int, x: nat)
    requires IsPrime(p) && !Divides(p, x)
    ensures Rem(Pow(x, p - 1), p) == 1
  {
    hide Rem;
    Fermat(p, x);
    RemSmall(0, p);
    RemSmall(1, p);
    var q := Pow(x, p - 1);
    assert Pow(x, p) == x * q;
    RemAdd(x * q, x, x, x, p);
    assert x * (q - 1) == x * q - x;
    EuclidsLemma(p, x, q - 1);
    RemAdd(q - 1, 0, 1, 1, p);
  }

  // ----- exponents

  lemma {:induction false} PowOne(n: nat)
    ensures Pow(1, n) == 1
  {
    if n > 0 {
      PowOne(n - 1);
    }
  }

  /** When x^n is one, exponents matter only modulo n. */
  lemma OrderExponent(m: int, x: int, n: nat, d: nat, e: nat)
    requires m > 0 && n > 0 && Rem(Pow(x, n), m) == Rem(1, m) && Rem(d, n) == Rem(e, n)
    ensures Rem(Pow(x, d), m) == Rem(Pow(x, e), m)
  {
    hide Rem, Pow;
    if d <= e {
      OrderExponentUp(m, x, n, d, e);
    } else {
      OrderExponentUp(m, x, n, e, d);
    }
  }

  lemma OrderExponentUp(m: int, x: int, n: nat, d: nat, e: nat)
    requires m > 0 && n > 0 && Rem(Pow(x, n), m) == Rem(1, m) && Rem(d, n) == Rem(e, n) && d <= e
    ensures Rem(Pow(x, d), m) == Rem(Pow(x, e), m)
  {
    hide Rem, Pow;
    var j := RemWitness(e, d, n);
    if j < 0 {
      MulMono(j + 1, 0, n);
      MulSum(j, 1, n);
    }
    assert j >= 0;
    assert j * n == n * j;
    PowMul(x, n, j);
    PowAdd(x, n * j, d);
    RemPow(Pow(x, n), 1, j, m);
    PowOne(j);
    RemMul(Pow(x, n * j), 1, Pow(x, d), Pow(x, d), m);
  }

  /** Exponents of any number matter only modulo p - 1, as long as they are positive. */
  lemma FermatExponent(p: int, x: nat, d: nat, e: nat)
    requires IsPrime(p) && d > 0 && e > 0 && Rem(d, p - 1) == Rem(e, p - 1)
    ensures Rem(Pow(x, d), p) == Rem(Pow(x, e), p)
  {
    hide Rem, Pow, Divides;
    if Divides(p, x) {
      DividesPow(p, x, d);
      DividesPow(p, x, e);
      DivisibleIs(p, Pow(x, d));
      DivisibleIs(p, Pow(x, e));
    } else {
      FermatInverse(p, x);
      RemSmall(1, p);
      OrderExponent(p, x, p - 1, d, e);
    }
  }

  lemma DivisibleIs(p: int, n: int)
    requires p > 0
    ensures Divides(p, n) <==> Rem(n, p) == 0
  {
  }

  lemma DividesPow(p: int, x: int, n: nat)
    requires p > 0 && n > 0 && Divides(p, x)
    ensures Divides(p, Pow(x, n))
  {
    hide Divides;
    DividesTimes(p, x, Pow(x, n - 1));
  }

  lemma {:induction false} PrimeDividesPow(p: int, x: nat, n: nat)
    requires IsPrime(p) && !Divides(p, x)
    ensures 0 <= Pow(x, n) && !Divides(p, Pow(x, n))
  {
    hide Divides;
    if n == 0 {
      DivisibleIs(p, 1);
      RemSmall(1, p);
    } else {
      PrimeDividesPow(p, x, n - 1);
      if Divides(p, Pow(x, n)) {
        EuclidsLemma(p, x, Pow(x, n - 1));
      }
      assert PowNat(x, n) == Pow(x, n);
    }
  }

  /** Numbers that agree modulo two different primes agree modulo their product. */
  lemma ChineseRemainder(p: int, q: int, a: int, b: int)
    requires IsPrime(p) && IsPrime(q) && p != q
    requires Rem(a, p) == Rem(b, p) && Rem(a, q) == Rem(b, q)
    ensures p * q > 0 && Rem(a, p * q) == Rem(b, p * q)
  {
    hide Rem, Divides;
    MulPos(p, q) by { PrimeAboveOne(p); PrimeAboveOne(q); }
    var i := RemWitness(a, b, p);
    var k := RemWitness(a, b, q);
    PrimeAboveOne(p);
    PrimeAboveOne(q);
    assert q * k == i * p by { assert k * q == q * k; }
    DividesIntro(p, q * k, i);
    DifferentPrimes(p, q);
    EuclidsLemma(p, q, k);
    var j := DividesWitness(p, k);
    assert k * q == j * (p * q);
    RemPlus(b, p * q, j);
  }

  lemma PrimeAboveOne(p: int)
    requires IsPrime(p)
    ensures p >= 2
  {
  }

  lemma DifferentPrimes(p: int, q: int)
    requires IsPrime(p) && IsPrime(q) && p != q
    ensures !Divides(p, q)
  {
    hide Rem;
    if p > q {
      RemSmall(q, p);
    }
  }
}
