/** The digital signature algorithm (dsa.c). */
module Dsa {
  import opened Arith
  import opened NumberTheory
  import opened Words
  import opened MpCompare
  import opened MpAddSub
  import opened MpShift
  import opened MpDivide
  import opened MpInverse
  import opened Barrett
  import opened Power
  import opened RandomNumbers
  import opened MpNumbers
  import opened PrimeSearch

  // ----- what signing and verifying mean

  /** The division of the n words of v by Q never meets the case that it does not handle. */
  ghost predicate ExactReduction(v: int, n: nat, Q: seq<mpw>) {
    forall X: seq<mpw> :: |X| == n && Val(X) == v ==> ExactModulo(X, Q)
  }

  /** What signing h with the nonce k yields: r is right if the division of g^k mod p by q is, and s
      fits r in any case. */
  ghost predicate Signed(p: nat, n: nat, Q: seq<mpw>, g: nat, x: nat, h: nat, k: nat, r: nat, s: nat)
    requires p > 0 && Val(Q) > 0
  {
    var v := Rem(Pow(g, k), p);
    && (ExactReduction(v, n, Q) ==> r == Rem(v, Val(Q)))
    && s < Val(Q) && Rem(k * s, Val(Q)) == Rem(h + x * r, Val(Q))
  }

  /** g generates a group whose order divides the prime q, and y is its power x. */
  ghost predicate Keys(p: nat, q: nat, g: nat, x: nat, y: nat) {
    && p > 1 && IsPrime(q) && Rem(Pow(g, q), p) == 1 && Rem(y, p) == Rem(Pow(g, x), p)
  }

  /** What verification computes from the inverse w of s, before it is reduced modulo q. The buffers
      of the two powers held left and right. */
  ghost function Recovered(p: nat, q: nat, g: nat, y: nat, h: nat, r: nat, w: nat, left: nat, right: nat): nat
    requires p > 0 && q > 0
  {
    RemBounds(h * w, q);
    RemBounds(r * w, q);
    var a, b := PowerOver(left, g, Rem(h * w, q), p), PowerOver(right, y, Rem(r * w, q), p);
    RemBounds(a * b, p);
    Rem(a * b, p)
  }

  /** h has no more bits than q. */
  ghost predicate HashFits(h: nat, q: nat) {
    forall k: nat :: q < P2(k) ==> h < P2(k)
  }

  ghost predicate Acceptable(h: nat, r: nat, s: nat, q: nat) {
    HashFits(h, q) && 0 < r < q && 0 < s < q
  }

  /** What verification accepts: the checks succeed, s is invertible, and what is recovered is
      reduced to r by a division that meets no equal leading words. */
  ghost predicate Accepted(p: nat, n: nat, Q: seq<mpw>, g: nat, y: nat, h: nat, r: nat, s: nat, left: nat, right: nat)
    requires p > 0 && Val(Q) > 0
  {
    && Acceptable(h, r, s, Val(Q)) && Gcd(Val(Q), s) == 1
    && forall w: nat :: IsInverse(w, s, Val(Q)) ==> Reproduced(p, n, Q, g, y, h, r, w, left, right)
  }

  ghost predicate Reproduced(p: nat, n: nat, Q: seq<mpw>, g: nat, y: nat, h: nat, r: nat, w: nat, left: nat, right: nat)
    requires p > 0 && Val(Q) > 0
  {
    var v := Recovered(p, Val(Q), g, y, h, r, w, left, right);
    ExactReduction(v, n, Q) && r == Rem(v, Val(Q))
  }

  /** Every signature leads back to the power of g that it was made from, whatever r is. */
  lemma Recovers(p: nat, q: nat, g: nat, x: nat, y: nat, h: nat, k: nat, r: nat, s: nat, w: nat, left: nat, right: nat)
    requires Keys(p, q, g, x, y) && Rem(k * s, q) == Rem(h + x * r, q) && IsInverse(w, s, q)
    requires Rem(h * w, q) > 0 && Rem(r * w, q) > 0
    ensures Recovered(p, q, g, y, h, r, w, left, right) == Rem(Pow(g, k), p)
  {
    hide Rem, IsPrime, Pow;
    PrimeAboveOne(q);
    var u1, u2 := Rem(h * w, q), Rem(r * w, q);
    ProductOfPowers(Rem(Pow(g, u1), p), Rem(Pow(y, u2), p), g, u1, y, u2, p);
    MulMono(0, x, u2);
    // both factors are powers of g
    RemPow(y, Pow(g, x), u2, p);
    PowMul(g, x, u2);
    PowAdd(g, u1, x * u2);
    RemMul(Pow(g, u1), Pow(g, u1), Pow(y, u2), Pow(g, x * u2), p);
    RecoveredExponent(q, x, h, k, r, s, w, u1, u2);
    RemSmall(1, p);
    OrderExponent(p, g, q, u1 + x * u2, k);
  }

  lemma RecoveredExponent(q: nat, x: nat, h: nat, k: nat, r: nat, s: nat, w: nat, u1: int, u2: int)
    requires q > 1 && u1 == Rem(h * w, q) && u2 == Rem(r * w, q)
    requires Rem(k * s, q) == Rem(h + x * r, q) && Rem(w * s, q) == Rem(1, q)
    ensures Rem(u1 + x * u2, q) == Rem(k, q)
  {
    hide Rem;
    RemRem(h * w, q);
    RemRem(r * w, q);
    RemMul(x, x, u2, r * w, q);
    RemAdd(u1, h * w, x * u2, x * (r * w), q);
    assert h * w + x * (r * w) == (h + x * r) * w by {
      MulAssoc(x, r, w);
      MulSum(h, x * r, w);
    }
    RemMul(h + x * r, k * s, w, w, q);
    assert (k * s) * w == k * (w * s) by {
      MulAssoc(k, s, w);
      assert s * w == w * s;
    }
    RemMul(k, k, w * s, 1, q);
  }

  /** Numbers below the prime q that are not zero have an inverse. */
  lemma InverseExists(q: nat, s: nat) returns (w: nat)
    requires IsPrime(q) && 0 < s < q
    ensures Gcd(q, s) == 1 && IsInverse(w, s, q)
  {
    hide Rem, IsPrime, Gcd;
    PrimeAboveOne(q);
    NotDivisible(q, s);
    PrimeGcd(q, s);
    var a, b := Bezout(q, s);
    RemBounds(b, q);
    w := Rem(b, q);
    RemRem(b, q);
    RemMul(w, b, s, s, q);
    RemPlus(b * s, q, a);
    RemSmall(1, q);
    RemSmall(0, q);
    assert w > 0;
  }

  lemma SecondExponentPositive(q: nat, r: nat, s: nat, w: nat)
    requires IsPrime(q) && 0 < r < q && IsInverse(w, s, q)
    ensures Rem(r * w, q) > 0
  {
    hide Rem, IsPrime;
    PrimeAboveOne(q);
    NotDivisible(q, w);
    NotDivisible(q, r);
    ProductNotDivisible(q, r, w);
  }

  /** The exponents of a verification are not zero when q divides neither the hash nor r. */
  lemma ExponentsPositive(q: nat, h: nat, r: nat, s: nat, w: nat)
    requires IsPrime(q) && Rem(h, q) != 0 && 0 < r < q && IsInverse(w, s, q)
    ensures Rem(h * w, q) > 0 && Rem(r * w, q) > 0
  {
    hide Rem, IsPrime;
    PrimeAboveOne(q);
    NotDivisible(q, w);
    DivisibleIs(q, h);
    ProductNotDivisible(q, h, w);
    SecondExponentPositive(q, r, s, w);
  }

  /** A signature with r and s not zero, of a hash that fits and that q does not divide, is accepted
      just when the division of g^k mod p by q meets no equal leading words. */
  lemma Completeness(p: nat, n: nat, Q: seq<mpw>, g: nat, x: nat, y: nat, h: nat, k: nat, r: nat, s: nat,
                     left: nat, right: nat)
    requires Val(Q) > 0 && Keys(p, Val(Q), g, x, y) && Signed(p, n, Q, g, x, h, k, r, s)
    requires HashFits(h, Val(Q)) && Rem(h, Val(Q)) != 0 && r > 0 && s > 0
    ensures Accepted(p, n, Q, g, y, h, r, s, left, right) <==> ExactReduction(Rem(Pow(g, k), p), n, Q)
  {
    hide Val, Rem, IsPrime, Pow, HashFits, Gcd, ExactReduction, IsInverse;
    var q, v := Val(Q), Rem(Pow(g, k), p);
    PrimeAboveOne(q);
    RemBounds(v, q);
    var w' := InverseExists(q, s);
    if r < q {
      forall w: nat | IsInverse(w, s, q)
        ensures Recovered(p, q, g, y, h, r, w, left, right) == v
      {
        ExponentsPositive(q, h, r, s, w);
        Recovers(p, q, g, x, y, h, k, r, s, w, left, right);
      }
      assert Reproduced(p, n, Q, g, y, h, r, w', left, right) ==> ExactReduction(v, n, Q);
    }
  }

  /** For a hash that q divides, the power of g is not written, and what its buffer held takes part instead. */
  lemma RecoversWithoutHash(p: nat, q: nat, g: nat, x: nat, y: nat, h: nat, k: nat, r: nat, s: nat, w: nat,
                            left: nat, right: nat)
    requires Keys(p, q, g, x, y) && Rem(k * s, q) == Rem(h + x * r, q) && IsInverse(w, s, q)
    requires Rem(h, q) == 0 && Rem(r * w, q) > 0
    ensures Recovered(p, q, g, y, h, r, w, left, right) == Rem(left * Rem(Pow(g, k), p), p)
  {
    hide Rem, IsPrime, Pow;
    PrimeAboveOne(q);
    var u2 := Rem(r * w, q);
    RemSmall(0, q);
    RemMul(h, 0, w, w, q);
    MulMono(0, x, u2);
    RemPow(y, Pow(g, x), u2, p);
    PowMul(g, x, u2);
    RecoveredExponent(q, x, h, k, r, s, w, 0, u2);
    RemSmall(1, p);
    OrderExponent(p, g, q, x * u2, k);
  }

  /** A signature of such a hash is accepted just when r is what its buffer makes of g^k. */
  lemma CompletenessWithoutHash(p: nat, n: nat, Q: seq<mpw>, g: nat, x: nat, y: nat, h: nat, k: nat, r: nat, s: nat,
                                left: nat, right: nat)
    requires Val(Q) > 0 && Keys(p, Val(Q), g, x, y) && Signed(p, n, Q, g, x, h, k, r, s)
    requires HashFits(h, Val(Q)) && Rem(h, Val(Q)) == 0 && r > 0 && s > 0
    ensures Accepted(p, n, Q, g, y, h, r, s, left, right) <==>
            var v := Rem(left * Rem(Pow(g, k), p), p);
            ExactReduction(v, n, Q) && r == Rem(v, Val(Q))
  {
    hide Val, Rem, IsPrime, Pow, HashFits, Gcd, ExactReduction, IsInverse;
    var q, v := Val(Q), Rem(left * Rem(Pow(g, k), p), p);
    PrimeAboveOne(q);
    RemBounds(v, q);
    var w' := InverseExists(q, s);
    if r < q {
      forall w: nat | IsInverse(w, s, q)
        ensures Recovered(p, q, g, y, h, r, w, left, right) == v
      {
        SecondExponentPositive(q, r, s, w);
        RecoversWithoutHash(p, q, g, x, y, h, k, r, s, w, left, right);
      }
      assert Reproduced(p, n, Q, g, y, h, r, w', left, right) ==> ExactReduction(v, n, Q) && r == Rem(v, q);
    }
  }

  /** Acceptance in full, for the inverse w of s: the hash has no more bits than q, r and s are in range, and
      (g^(h w) y^(r w) mod p) mod q is r, with exponents modulo q, of which a zero leaves what its buffer held. */
  lemma AcceptedMeans(p: nat, n: nat, Q: seq<mpw>, g: nat, y: nat, h: nat, r: nat, s: nat, left: nat, right: nat,
                      w: nat)
    requires p > 0 && Val(Q) > 1 && IsInverse(w, s, Val(Q))
    ensures Accepted(p, n, Q, g, y, h, r, s, left, right) <==>
            var q, u1, u2 := Val(Q), Rem(h * w, Val(Q)), Rem(r * w, Val(Q));
            var a, b := if u1 > 0 then Pow(g, u1) else left, if u2 > 0 then Pow(y, u2) else right;
            && BitLength(h) <= BitLength(q) && 0 < r < q && 0 < s < q
            && ExactReduction(Rem(a * b, p), n, Q) && r == Rem(Rem(a * b, p), q)
  {
    hide Val, Rem, Pow, Gcd, ExactReduction, IsInverse, HashFits, BitLength, Recovered, PowerOver;
    var q := Val(Q);
    FitsByBits(h, q);
    InverseCoprime(q, s, w);
    OneInverse(w, s, q);
    RecoveredMeans(p, q, g, y, h, r, w, left, right);
    assert Accepted(p, n, Q, g, y, h, r, s, left, right) <==>
           Acceptable(h, r, s, q) && Reproduced(p, n, Q, g, y, h, r, w, left, right);
  }

  lemma RecoveredMeans(p: nat, q: nat, g: nat, y: nat, h: nat, r: nat, w: nat, left: nat, right: nat)
    requires p > 0 && q > 0
    ensures Rem(h * w, q) >= 0 && Rem(r * w, q) >= 0
    ensures var u1, u2 := Rem(h * w, q), Rem(r * w, q);
            var a, b := if u1 > 0 then Pow(g, u1) else left, if u2 > 0 then Pow(y, u2) else right;
            Recovered(p, q, g, y, h, r, w, left, right) == Rem(a * b, p)
  {
    hide Rem, Pow;
    RemBounds(h * w, q);
    RemBounds(r * w, q);
    var u1, u2 := Rem(h * w, q), Rem(r * w, q);
    RemRem(Pow(g, u1), p);
    RemRem(Pow(y, u2), p);
    var a, b := if u1 > 0 then Pow(g, u1) else left, if u2 > 0 then Pow(y, u2) else right;
    RemMul(PowerOver(left, g, u1, p), a, PowerOver(right, y, u2, p), b, p);
  }

  /** What has an inverse is coprime to the modulus. */
  lemma InverseCoprime(q: nat, s: nat, w: nat)
    requires q > 1 && IsInverse(w, s, q)
    ensures Gcd(q, s) == 1
  {
    hide Rem, Gcd, Divides;
    var g := Gcd(q, s);
    DividesIntro(g, g, 1);
    GcdDivisors(q, s, g);
    var j := RemWitness(w * s, 1, q);
    DividesTimes(g, s, w);
    DividesTimes(g, q, j);
    DividesSum(g, j * q, 1);
    DivisorBound(g, 1);
  }

  lemma NotDivisible(q: int, v: int)
    requires 0 < v < q
    ensures !Divides(q, v)
  {
    RemSmall(v, q);
  }

  lemma ProductNotDivisible(q: int, a: nat, b: nat)
    requires IsPrime(q) && !Divides(q, a) && !Divides(q, b)
    ensures Rem(a * b, q) > 0
  {
    hide Rem, IsPrime;
    PrimeAboveOne(q);
    RemBounds(a * b, q);
    if Divides(q, a * b) {
      EuclidsLemma(q, a, b);
    }
  }

  // ----- reducing modulo q by division

  /** v modulo q, in as many words as v has; a word is left in front when equal leading words are met. */
  method Reduce(x: array<mpw>, n: nat, q: MpBarrett) returns (z: array<mpw>)
    requires q.Usable() && q.size <= n <= x.Length && x != q.modl
    ensures z.Length == n
    ensures if ExactReduction(Val(x[0..n]), n, q.modl[0..q.size]) then Val(z[0..n]) == Rem(Val(x[0..n]), q.Modulus())
            else Val(z[0..n]) >= P(q.size)
  {
    hide Val, P, Rem, ExactModulo;
    z := new mpw[n];
    var ws := new mpw[2 * q.size + 1];
    ghost var X := x[0..n];
    MpMod(z, 0, n, x, 0, q.size, q.modl, 0, ws);
    OnlyWords(X, n, q.modl[0..q.size]);
  }

  lemma OnlyWords(X: seq<mpw>, n: nat, Q: seq<mpw>)
    requires |X| == n
    ensures ExactReduction(Val(X), n, Q) <==> ExactModulo(X, Q)
  {
    hide Val, ExactModulo;
    forall Y: seq<mpw> | |Y| == n && Val(Y) == Val(X)
      ensures Y == X
    {
      ValInjective(X, Y);
    }
  }

  lemma LowWordsEnough(Z: seq<mpw>, q: nat, limit: nat)
    requires q <= |Z| && Val(Z) < limit <= P(q)
    ensures Val(Z[|Z| - q..]) == Val(Z)
  {
    hide Val, P;
    var d := |Z| - q;
    ValSplit(Z, d);
    if Val(Z[..d]) > 0 {
      MulStep(0, Val(Z[..d]), P(q));
    }
    assert Val(Z[..d]) == 0;
  }

  // ----- signing

  /** Signs the hash hm with a random nonce, unless the random source runs out. */
  method DsaSign(p: MpBarrett, q: MpBarrett, g: MpNumber, rng: RandomGenerator, hm: MpNumber, x: MpNumber)
      returns (ok: bool, r: array<mpw>, s: array<mpw>, ghost k: nat)
    requires p.Valid() && q.Valid() && q.size <= p.size && q.size <= 0x1_0000_0000_0000 && q.Modulus() > 2
    requires g.Readable() && hm.Readable() && x.Readable() && g.size <= p.size && hm.size <= q.size && x.size <= q.size
    modifies rng
    ensures r.Length == s.Length == q.size
    ensures DrawSize(q.size, q.Modulus())
    ensures InvertibleBelow(old(rng.words), q.size, q.Modulus()) == if ok then Number(k, rng.words) else Nothing
    ensures ok ==> 1 < k < q.Modulus() - 1
    ensures ok ==> Signed(p.Modulus(), p.size, q.modl[0..q.size], g.Value(), x.Value(), hm.Value(), k,
                          Val(r[0..q.size]), Val(s[0..q.size]))
  {
    hide Val, P, Rem, IsPower, ExactReduction, IsInverse, Pow, Signed, InvertibleBelow, DrawSize;
    var n := q.size;
    r, s := new mpw[n], new mpw[n];
    k := 0;
    var nonce, inverse := new mpw[n], new mpw[n];
    ok := Nonce(q, rng, nonce, inverse);
    if ok {
      k := Val(nonce[0..n]);
      SignWith(p, q, g, MpNumber(n, nonce), MpNumber(n, inverse), hm, x, r, s);
    }
  }

  method SignWith(p: MpBarrett, q: MpBarrett, g: MpNumber, k: MpNumber, inverse: MpNumber, hm: MpNumber, x: MpNumber,
                  r: array<mpw>, s: array<mpw>)
    requires p.Valid() && q.Valid() && q.size <= p.size && q.Modulus() > 2
    requires g.Readable() && hm.Readable() && x.Readable() && g.size <= p.size && hm.size <= q.size && x.size <= q.size
    requires k.Readable() && inverse.Readable() && inverse.size == q.size && k.Value() > 0
    requires IsInverse(inverse.Value(), k.Value(), q.Modulus())
    requires r.Length == s.Length == q.size && r != s
    requires r != q.modl && r != p.modl && r != g.data && r != hm.data && r != x.data && r != k.data
    requires s != q.modl && s != p.modl && s != g.data && s != hm.data && s != x.data && s != k.data
    requires r != inverse.data && s != inverse.data
    modifies r, s
    ensures Signed(p.Modulus(), p.size, q.modl[0..q.size], g.Value(), x.Value(), hm.Value(), k.Value(),
                   Val(r[0..q.size]), Val(s[0..q.size]))
  {
    hide Val, P, Rem, ExactReduction, IsInverse, Pow, Signed;
    var n := q.size;
    ghost var Q, kv, ki, gv, h, xv := q.modl[0..n], k.Value(), inverse.Value(), g.Value(), hm.Value(), x.Value();
    CommitTo(p, q, g, k, r);
    ghost var rv := Val(r[0..n]);
    SolveFor(q, inverse, hm, x, r, s);
    assert Val(r[0..n]) == rv;
    IsSignature(p.Modulus(), p.size, Q, gv, xv, h, kv, ki, rv, Val(s[0..n]));
  }

  method Nonce(q: MpBarrett, rng: RandomGenerator, nonce: array<mpw>, inverse: array<mpw>) returns (ok: bool)
    requires q.Usable() && q.Modulus() > 2 && q.size <= 0x1_0000_0000_0000
    requires nonce.Length == q.size && inverse.Length == q.size
    requires nonce != inverse && nonce != q.modl && inverse != q.modl
    modifies rng, nonce, inverse
    ensures DrawSize(q.size, q.Modulus())
    ensures InvertibleBelow(old(rng.words), q.size, q.Modulus()) ==
            if ok then Number(Val(nonce[0..q.size]), rng.words) else Nothing
    ensures ok ==> 1 < Val(nonce[0..q.size]) < q.Modulus() - 1
    ensures ok ==> IsInverse(Val(inverse[0..q.size]), Val(nonce[0..q.size]), q.Modulus())
  {
    hide Val, P, IsInverse, InvertibleBelow, DrawSize;
    var n := q.size;
    var wksp := new mpw[n];
    var w := NewWork(n);
    ok := MpBRndInv(q, rng, nonce, inverse, wksp, w);
  }

  /** r := (g^k mod p) mod q */
  method CommitTo(p: MpBarrett, q: MpBarrett, g: MpNumber, k: MpNumber, r: array<mpw>)
    requires p.Valid() && q.Usable() && q.size <= p.size && g.Readable() && k.Readable() && g.size <= p.size
    requires r.Length == q.size && r != q.modl && k.Value() > 0
    modifies r
    ensures var v := Rem(old(Pow(g.Value(), k.Value())), old(p.Modulus()));
            ExactReduction(v, p.size, q.modl[0..q.size]) ==> Val(r[0..q.size]) == Rem(v, q.Modulus())
  {
    hide Val, P, Rem, ExactReduction, Pow;
    var n := p.size;
    var power := new mpw[n];
    ghost var Q := q.modl[0..q.size];
    PowMod(p, g, k, power);
    ghost var v := Val(power[0..n]);
    var z := Reduce(power, n, q);
    MpCopy(q.size, r, 0, z, n - q.size);
    if ExactReduction(v, n, Q) {
      RemBounds(v, q.Modulus());
      ValBound(Q);
      LowWordsEnough(z[0..n], q.size, q.Modulus());
      assert z[0..n][n - q.size..] == z[n - q.size..n - q.size + q.size];
    }
  }

  /** s := ki (h + x r) mod q */
  method SolveFor(q: MpBarrett, ki: MpNumber, hm: MpNumber, x: MpNumber, r: array<mpw>, s: array<mpw>)
    requires q.Valid() && ki.Readable() && hm.Readable() && x.Readable()
    requires ki.size == q.size && hm.size <= q.size && x.size <= q.size && r.Length == q.size == s.Length
    requires s != q.modl && s != r && r != hm.data && r != x.data
    modifies s
    ensures Val(s[0..q.size]) ==
            Rem(old(ki.Value()) * (old(hm.Value()) + old(x.Value()) * old(Val(r[0..q.size]))), q.Modulus())
  {
    hide Val, P, Rem;
    var n := q.size;
    ghost var kv, h, xv, rv := ki.Value(), hm.Value(), x.Value(), Val(r[0..n]);
    ghost var m := q.Modulus();
    var xr, sum := new mpw[n], new mpw[n];
    MulMod(q, x, MpNumber(n, r), xr);
    AddMod(q, MpNumber(n, xr), hm, sum);
    MulMod(q, ki, MpNumber(n, sum), s);
    SolvedFor(kv, h, xv * rv, m);
  }

  lemma SolvedFor(k: int, h: int, y: int, m: int)
    requires m > 0
    ensures Rem(k * Rem(Rem(y, m) + h, m), m) == Rem(k * (h + y), m)
  {
    hide Rem;
    RemRem(y, m);
    RemAdd(Rem(y, m), y, h, h, m);
    RemRem(h + y, m);
    RemMul(k, k, Rem(h + y, m), h + y, m);
  }

  lemma IsSignature(p: nat, n: nat, Q: seq<mpw>, g: nat, x: nat, h: nat, k: nat, ki: nat, r: nat, s: nat)
    requires p > 0 && Val(Q) > 2 && IsInverse(ki, k, Val(Q))
    requires ExactReduction(Rem(Pow(g, k), p), n, Q) ==> r == Rem(Rem(Pow(g, k), p), Val(Q))
    requires s == Rem(ki * (h + x * r), Val(Q))
    ensures Signed(p, n, Q, g, x, h, k, r, s)
  {
    hide Val, Rem, Pow, ExactReduction;
    var t, q := h + x * r, Val(Q);
    RemBounds(ki * t, q);
    RemRem(ki * t, q);
    RemMul(k, k, s, ki * t, q);
    assert k * (ki * t) == (ki * k) * t by {
      MulAssoc(k, ki, t);
      assert k * ki == ki * k;
    }
    RemMul(ki * k, 1, t, t, q);
  }

  method NewWork(n: nat) returns (w: Work)
    ensures fresh(w.u) && fresh(w.v) && fresh(w.a) && fresh(w.b) && fresh(w.c) && fresh(w.d)
    ensures w.u.Length == w.v.Length == w.a.Length == w.b.Length == w.c.Length == w.d.Length == n + 1
    ensures w.u != w.v && w.u != w.a && w.u != w.b && w.u != w.c && w.u != w.d && w.v != w.a && w.v != w.b && w.v != w.c
    ensures w.v != w.d && w.a != w.b && w.a != w.c && w.a != w.d && w.b != w.c && w.b != w.d && w.c != w.d
  {
    var u, v, a := new mpw[n + 1], new mpw[n + 1], new mpw[n + 1];
    var b, c, d := new mpw[n + 1], new mpw[n + 1], new mpw[n + 1];
    w := Work(u, v, a, b, c, d);
  }

  // ----- verifying

  method HashSizeFits(h: MpNumber, q: MpBarrett) returns (fits: bool)
    requires h.Readable() && q.Sized()
    ensures fits <==> HashFits(h.Value(), q.Modulus())
  {
    hide Val, P2;
    var hb := MpBits(h.size, h.data, 0);
    var qb := MpBits(q.size, q.modl, 0);
    fits := hb <= qb;
    CompareBits(h.Value(), hb, q.Modulus(), qb);
  }

  lemma FitsByBits(h: nat, q: nat)
    ensures HashFits(h, q) <==> BitLength(h) <= BitLength(q)
  {
    hide P2, BitLength;
    var k := BitLength(q);
    BitLengthAtMost(q, k);
    BitLengthAtMost(h, k);
    forall j: nat | q < P2(j) && BitLength(h) <= k
      ensures h < P2(j)
    {
      BitLengthAtMost(q, j);
      BitLengthAtMost(h, j);
    }
  }

  lemma CompareBits(h: nat, hb: nat, q: nat, qb: nat)
    requires h < P2(hb) && (hb == 0 <==> h == 0) && (hb > 0 ==> P2(hb - 1) <= h)
    requires q < P2(qb) && (qb == 0 <==> q == 0) && (qb > 0 ==> P2(qb - 1) <= q)
    ensures hb <= qb <==> HashFits(h, q)
  {
    hide P2;
    forall k: nat
      ensures hb > k <==> h >= P2(k)
      ensures qb > k <==> q >= P2(k)
    {
      BitCount(h, hb, k);
      BitCount(q, qb, k);
    }
  }

  /** The checks on the hash and on the signature. */
  method CheckSignature(q: MpBarrett, hm: MpNumber, r: MpNumber, s: MpNumber) returns (ok: bool)
    requires q.Sized() && hm.Readable() && r.Readable() && s.Readable()
    ensures ok <==> Acceptable(hm.Value(), r.Value(), s.Value(), q.Modulus())
    ensures ok <==> && BitLength(hm.Value()) <= BitLength(q.Modulus())
                    && 0 < r.Value() < q.Modulus() && 0 < s.Value() < q.Modulus()
  {
    hide Val, HashFits, BitLength;
    FitsByBits(hm.Value(), q.Modulus());
    var fits := HashSizeFits(hm, q);
    var rz := MpZ(r.size, r.data, 0);
    var rge := MpGex(r.size, r.data, 0, q.size, q.modl, 0);
    var sz := MpZ(s.size, s.data, 0);
    var sge := MpGex(s.size, s.data, 0, q.size, q.modl, 0);
    ok := fits && !rz && !rge && !sz && !sge;
  }

  /** The inverse of s modulo q, if there is one. */
  method InvertModulo(q: MpBarrett, s: MpNumber) returns (ok: bool, inverse: array<mpw>)
    requires q.Usable() && q.size <= 0x1_0000_0000_0000 && q.Modulus() % 2 == 1 && s.Readable()
    requires 0 < s.Value() < q.Modulus()
    ensures inverse.Length == q.size && fresh(inverse)
    ensures ok <==> Gcd(q.Modulus(), s.Value()) == 1
    ensures ok ==> IsInverse(Val(inverse[0..q.size]), s.Value(), q.Modulus())
  {
    hide Val, P, IsInverse, Gcd;
    var n := q.size;
    var wide := new mpw[n];
    inverse := new mpw[n];
    ghost var S := s.data[0..s.size];
    ValBound(q.modl[0..n]);
    ResizedIsMod(n, S);
    MpSetx(n, wide, 0, s.size, s.data, 0);
    var w := NewWork(n);
    ok := MpExtGcdW(n, q.modl, 0, wide, 0, inverse, 0, w);
  }

  /** The verdict, for buffers of the two powers that held left and right. */
  method DsaVrfy(p: MpBarrett, q: MpBarrett, g: MpNumber, hm: MpNumber, y: MpNumber, r: MpNumber, s: MpNumber)
      returns (rc: bool, ghost left: nat, ghost right: nat)
    requires p.Valid() && q.Valid() && q.size <= p.size && q.size <= 0x1_0000_0000_0000 && q.Modulus() % 2 == 1
    requires g.Readable() && hm.Readable() && y.Readable() && r.Readable() && s.Readable()
    requires g.size <= p.size && y.size <= p.size && hm.size <= q.size && r.size <= q.size
    ensures rc <==> Accepted(p.Modulus(), p.size, q.modl[0..q.size], g.Value(), y.Value(), hm.Value(),
                             r.Value(), s.Value(), left, right)
    ensures rc ==> && BitLength(hm.Value()) <= BitLength(q.Modulus())
                   && 0 < r.Value() < q.Modulus() && 0 < s.Value() < q.Modulus()
  {
    hide BitLength;
    hide Val, P, Rem, IsInverse, Gcd, Acceptable, Pow, HashFits, Reproduced;
    left, right := 0, 0;
    rc := CheckSignature(q, hm, r, s);
    if rc {
      var inverse;
      InRangeOnly(hm.Value(), r.Value(), s.Value(), q.Modulus());
      rc, inverse := InvertModulo(q, s);
      if rc {
        ghost var w := Val(inverse[0..q.size]);
        rc, left, right := Recover(p, q, g, hm, y, r, MpNumber(q.size, inverse));
        OneInverse(w, s.Value(), q.Modulus());
      }
    }
  }

  lemma InRangeOnly(h: nat, r: nat, s: nat, q: nat)
    requires Acceptable(h, r, s, q)
    ensures 0 < s < q && 0 < r < q && q > 1
  {
  }

  lemma OneInverse(w: nat, s: nat, q: nat)
    requires q > 1 && IsInverse(w, s, q)
    ensures forall w': nat :: IsInverse(w', s, q) ==> w' == w
  {
    hide Rem;
    forall w': nat | IsInverse(w', s, q)
      ensures w' == w
    {
      assert (w' * s) * w == w' * (w * s) by {
        MulAssoc(w', s, w);
        assert s * w == w * s;
      }
      RemMul(w' * s, 1, w, w, q);
      RemMul(w', w', w * s, 1, q);
      RemSmall(w, q);
      RemSmall(w', q);
    }
  }

  method Recover(p: MpBarrett, q: MpBarrett, g: MpNumber, hm: MpNumber, y: MpNumber, r: MpNumber, w: MpNumber)
      returns (rc: bool, ghost left: nat, ghost right: nat)
    requires p.Valid() && q.Valid() && q.size <= p.size
    requires g.Readable() && hm.Readable() && y.Readable() && r.Readable() && w.Readable()
    requires g.size <= p.size && y.size <= p.size && hm.size <= q.size && r.size <= q.size && w.size <= q.size
    requires r.Value() < q.Modulus()
    ensures rc <==> Reproduced(p.Modulus(), p.size, q.modl[0..q.size], g.Value(), y.Value(), hm.Value(),
                               r.Value(), w.Value(), left, right)
  {
    hide Val, P, Rem, ExactReduction, Recovered;
    var n := p.size;
    var u1 := Times(q, hm, w);
    var u2 := Times(q, r, w);
    ghost var v1: nat, v2: nat := Val(u1[0..q.size]), Val(u2[0..q.size]);
    var v;
    v, left, right := PowerProduct(p, g, MpNumber(q.size, u1), y, MpNumber(q.size, u2));
    RecoveredIs(p.Modulus(), q.Modulus(), g.Value(), y.Value(), hm.Value(), r.Value(), w.Value(), v1, v2, left, right);
    var z := Reduce(v, n, q);
    ValBound(q.modl[0..q.size]);
    rc := MpEqx(r.size, r.data, 0, n, z, 0);
  }

  method Times(q: MpBarrett, x: MpNumber, y: MpNumber) returns (z: array<mpw>)
    requires q.Valid() && x.Readable() && y.Readable() && x.size <= q.size && y.size <= q.size
    ensures z.Length == q.size && fresh(z) && Val(z[0..q.size]) == Rem(x.Value() * y.Value(), q.Modulus())
  {
    hide Val, P, Rem;
    z := new mpw[q.size];
    MulMod(q, x, y, z);
  }

  /** g^u1 y^u2 modulo p, where a zero exponent leaves what its buffer held. */
  method PowerProduct(p: MpBarrett, g: MpNumber, u1: MpNumber, y: MpNumber, u2: MpNumber)
      returns (v: array<mpw>, ghost left: nat, ghost right: nat)
    requires p.Valid() && g.Readable() && y.Readable() && u1.Readable() && u2.Readable()
    requires g.size <= p.size && y.size <= p.size
    ensures v.Length == p.size && fresh(v)
    ensures Val(v[0..p.size]) == Rem(PowerOver(left, g.Value(), u1.Value(), p.Modulus())
                                     * PowerOver(right, y.Value(), u2.Value(), p.Modulus()), p.Modulus())
  {
    hide Val, P, Rem, Pow, IsPower, PowerOver;
    var n := p.size;
    var other := new mpw[n];
    v := new mpw[n];
    left, right := Val(v[0..n]), Val(other[0..n]);
    PowMod(p, g, u1, v);
    ghost var a := Val(v[0..n]);
    PowMod(p, y, u2, other);
    assert Val(v[0..n]) == a;
    MulMod(p, MpNumber(n, v), MpNumber(n, other), v);
  }

  lemma ProductOfPowers(a: int, b: int, x: int, d: nat, y: int, e: nat, m: int)
    requires m > 0 && IsPower(a, x, d, m) && IsPower(b, y, e, m)
    ensures Rem(a * b, m) == Rem(Pow(x, d) * Pow(y, e), m)
  {
    hide Rem, Pow;
    RemRem(Pow(x, d), m);
    RemRem(Pow(y, e), m);
    RemMul(a, Pow(x, d), b, Pow(y, e), m);
  }

  lemma RecoveredIs(p: nat, q: nat, g: nat, y: nat, h: nat, r: nat, w: nat, u1: nat, u2: nat, left: nat, right: nat)
    requires p > 0 && q > 0 && u1 == Rem(h * w, q) && u2 == Rem(r * w, q)
    ensures Recovered(p, q, g, y, h, r, w, left, right) ==
            Rem(PowerOver(left, g, u1, p) * PowerOver(right, y, u2, p), p)
  {
  }
}
