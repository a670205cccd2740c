/** Facts of integer arithmetic used throughout: products, division and remainders. */
module Arith {
  lemma MulMono(a: int, b: int, p: int)
    requires a <= b && 0 <= p
    ensures a * p <= b * p
  {
    assert 0 <= (b - a) * p;
    assert (b - a) * p == b * p - a * p;
  }

  lemma MulStep(a: int, b: int, p: int)
    requires a < b && 0 <= p
    ensures a * p + p <= b * p
  {
    MulMono(a + 1, b, p);
    assert (a + 1) * p == a * p + p;
  }

  lemma MulPos(a: int, b: int)
    requires 0 < a && 0 < b
    ensures a * b > 0
    ensures a * b >= a && a * b >= b
  {
    MulMono(1, a, b);
    MulMono(1, b, a);
  }

  lemma SquareBelow(p: int)
    requires 1 <= p
    ensures (p - 1) * (p - 1) < p * p
  {
  }

  lemma MulDiff(a: int, b: int, p: int)
    ensures (a - b) * p == a * p - b * p
  {
  }

  lemma MulSum(a: int, b: int, p: int)
    ensures (a + b) * p == a * p + b * p
  {
  }

  lemma MulAssoc(a: int, b: int, c: int)
    ensures (a * b) * c == a * (b * c)
  {
  }

  lemma MulBound(x: int, y: int, m: int, n: int)
    requires 0 <= x <= m && 0 <= y <= n
    ensures 0 <= x * y <= m * n
  {
    MulMono(0, x, y);
    MulMono(x, m, y);
    MulMono(y, n, m);
  }

  /** Quotient and remainder are unique. */
  lemma DivModUnique(n: int, d: int, q: int, r: int)
    requires 0 < d && n == q * d + r && 0 <= r < d
    ensures n / d == q && n % d == r
  {
    var q', r' := n / d, n % d;
    assert n == q' * d + r';
    if q < q' {
      MulStep(q, q', d);
    } else if q' < q {
      MulStep(q', q, d);
    }
  }

  lemma DivMod(n: int, d: int)
    requires 0 < d
    ensures n == (n / d) * d + n % d && 0 <= n % d < d
  {
  }

  // ----- quotient and remainder by name, so that proofs can leave their definition out

  ghost function Quo(a: int, v: int): int
    requires 0 < v
  {
    a / v
  }

  ghost function Rem(a: int, v: int): int
    requires 0 < v
  {
    a % v
  }

  lemma RemBounds(a: int, m: int)
    requires 0 < m
    ensures 0 <= Rem(a, m) < m
  {
  }

  lemma RemSmall(a: int, m: int)
    requires 0 <= a < m
    ensures Rem(a, m) == a
  {
    DivModUnique(a, m, 0, a);
  }

  /** Adding a multiple of the modulus changes no remainder. */
  lemma RemPlus(a: int, m: int, j: int)
    requires 0 < m
    ensures Rem(a + j * m, m) == Rem(a, m)
  {
    DivMod(a, m);
    MulSum(a / m, j, m);
    DivModUnique(a + j * m, m, a / m + j, a % m);
  }

  /** Numbers with the same remainder differ by a multiple of the modulus. */
  lemma RemWitness(a: int, b: int, m: int) returns (j: int)
    requires 0 < m && Rem(a, m) == Rem(b, m)
    ensures a == b + j * m
  {
    DivMod(a, m);
    DivMod(b, m);
    j := a / m - b / m;
    MulDiff(a / m, b / m, m);
  }

  lemma RemRem(a: int, m: int)
    requires 0 < m
    ensures Rem(Rem(a, m), m) == Rem(a, m)
  {
    RemSmall(Rem(a, m), m);
  }

  /** Products of numbers with the same remainders have the same remainder. */
  lemma RemMul(a: int, a': int, b: int, b': int, m: int)
    requires 0 < m && Rem(a, m) == Rem(a', m) && Rem(b, m) == Rem(b', m)
    ensures Rem(a * b, m) == Rem(a' * b', m)
  {
    hide Rem;
    var i := RemWitness(a, a', m);
    var j := RemWitness(b, b', m);
    var k := i * b + a' * j;
    assert a * b == a' * b' + k * m by {
      assert (a' + i * m) * b == a' * b + (i * b) * m;
      assert a' * (b' + j * m) == a' * b' + (a' * j) * m;
    }
    RemPlus(a' * b', m, k);
  }

  lemma RemAdd(a: int, a': int, b: int, b': int, m: int)
    requires 0 < m && Rem(a, m) == Rem(a', m) && Rem(b, m) == Rem(b', m)
    ensures Rem(a + b, m) == Rem(a' + b', m)
    ensures Rem(a - b, m) == Rem(a' - b', m)
  {
    hide Rem;
    var i := RemWitness(a, a', m);
    var j := RemWitness(b, b', m);
    MulSum(i, j, m);
    MulDiff(i, j, m);
    RemPlus(a' + b', m, i + j);
    RemPlus(a' - b', m, i - j);
  }

  // ----- powers

  function Pow(x: int, n: nat): int {
    if n == 0 then 1 else x * Pow(x, n - 1)
  }

  lemma {:induction false} PowAdd(x: int, m: nat, n: nat)
    ensures Pow(x, m + n) == Pow(x, m) * Pow(x, n)
  {
    if m > 0 {
      PowAdd(x, m - 1, n);
      MulAssoc(x, Pow(x, m - 1), Pow(x, n));
    }
  }

  lemma {:induction false} PowMul(x: int, m: nat, n: nat)
    ensures 0 <= m * n && Pow(x, m * n) == Pow(Pow(x, m), n)
  {
    MulMono(0, m, n);
    if n > 0 {
      PowMul(x, m, n - 1);
      assert m * n == m + m * (n - 1);
      PowAdd(x, m, m * (n - 1));
    }
  }

  lemma {:induction false} RemPow(x: int, y: int, n: nat, m: int)
    requires 0 < m && Rem(x, m) == Rem(y, m)
    ensures Rem(Pow(x, n), m) == Rem(Pow(y, n), m)
  {
    hide Rem;
    if n > 0 {
      RemPow(x, y, n - 1, m);
      RemMul(x, y, Pow(x, n - 1), Pow(y, n - 1), m);
    }
  }
}
