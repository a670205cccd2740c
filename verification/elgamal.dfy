/** ElGamal signatures, variants 1 and 3 (elgamal.c), with n = p - 1. */
module ElGamal {
  import opened Arith
  import opened NumberTheory
  import opened Words
  import opened MpCompare
  import opened MpAddSub
  import opened MpInverse
  import opened Barrett
  import opened RandomNumbers
  import opened MpNumbers
  import opened Dsa

  /** p is a prime that does not divide g, and y is g to the power x. */
  ghost predicate Keys(p: nat, g: nat, x: nat, y: nat) {
    IsPrime(p) && !Divides(p, g) && Rem(y, p) == Rem(Pow(g, x), p)
  }

  /** The two structures are those of p and of p - 1. */
  ghost predicate Moduli(p: MpBarrett, n: MpBarrett)
    reads p, p.modl, n, n.modl
  {
    p.Valid() && n.Valid() && p.size == n.size && n.Modulus() == p.Modulus() - 1 && n.Modulus() > 2
  }

  /** What both verifications check first. */
  ghost predicate InRange(p: nat, n: nat, r: nat, s: nat) {
    0 < r < p && 0 < s < n
  }

  method CheckRange(p: MpBarrett, n: MpBarrett, r: MpNumber, s: MpNumber) returns (ok: bool)
    requires p.Sized() && n.Sized() && r.Readable() && s.Readable()
    ensures ok <==> InRange(p.Modulus(), n.Modulus(), r.Value(), s.Value())
    ensures ok <==> 0 < r.Value() < p.Modulus() && 0 < s.Value() < n.Modulus()
  {
    hide Val;
    var rz := MpZ(r.size, r.data, 0);
    var rge := MpGex(r.size, r.data, 0, p.size, p.modl, 0);
    var sz := MpZ(s.size, s.data, 0);
    var sge := MpGex(s.size, s.data, 0, n.size, n.modl, 0);
    ok := !rz && !rge && !sz && !sge;
  }

  /** Of the numbers that are congruent modulo p, one can be accepted as r: none of p more, or of a multiple more. */
  lemma OneRepresentative(p: nat, n: nat, r: nat, r': nat, s: nat)
    requires InRange(p, n, r, s) && InRange(p, n, r', s) && Rem(r, p) == Rem(r', p)
    ensures r == r'
  {
    hide Rem;
    RemSmall(r, p);
    RemSmall(r', p);
  }

  // ----- variant 1

  /** r = g^k and k s = h - x r modulo p - 1. */
  ghost predicate Signed1(p: nat, n: nat, g: nat, x: nat, h: nat, k: nat, r: nat, s: nat)
    requires p > 0 && n > 0
  {
    r == Rem(Pow(g, k), p) && s < n && Rem(k * s, n) == Rem(h - x * r, n)
  }

  /** y^r r^s agrees with g^h; for a zero hash the buffer of g^h still holds y^r. */
  ghost predicate Verifies1(p: nat, g: nat, y: nat, h: nat, r: nat, s: nat)
    requires p > 0
  {
    Rem(Pow(y, r) * Pow(r, s), p) == if h > 0 then Rem(Pow(g, h), p) else Rem(Pow(y, r), p)
  }

  lemma VerifyProduct(p: nat, g: nat, x: nat, y: nat, k: nat, r: nat, e: nat, f: nat)
    requires Keys(p, g, x, y) && r == Rem(Pow(g, k), p)
    ensures 0 <= x * e && 0 <= k * f
    ensures Rem(Pow(y, e) * Pow(r, f), p) == Rem(Pow(g, x * e + k * f), p)
  {
    hide Rem, IsPrime, Pow, Divides;
    PrimeAboveOne(p);
    RemRem(Pow(g, k), p);
    PowMul(g, x, e);
    PowMul(g, k, f);
    PowAdd(g, x * e, k * f);
    RemPow(y, Pow(g, x), e, p);
    RemPow(r, Pow(g, k), f, p);
    RemMul(Pow(y, e), Pow(g, x * e), Pow(r, f), Pow(g, k * f), p);
  }

  /** Powers of g depend on the exponent modulo p - 1 only. */
  lemma SamePower(p: nat, g: nat, d: nat, e: nat)
    requires IsPrime(p) && !Divides(p, g) && Rem(d, p - 1) == Rem(e, p - 1)
    ensures Rem(Pow(g, d), p) == Rem(Pow(g, e), p)
  {
    hide Rem, IsPrime, Pow, Divides;
    PrimeAboveOne(p);
    FermatInverse(p, g);
    RemSmall(1, p);
    OrderExponent(p, g, p - 1, d, e);
  }

  /** A signature of variant 1 is accepted just when s is not zero, unless the hash is zero
      and y^r is not one. */
  lemma Completeness1(p: nat, g: nat, x: nat, y: nat, h: nat, k: nat, r: nat, s: nat)
    requires Keys(p, g, x, y) && p > 2 && Signed1(p, p - 1, g, x, h, k, r, s)
    ensures InRange(p, p - 1, r, s) && Verifies1(p, g, y, h, r, s) <==> s > 0 && (h > 0 || Rem(Pow(y, r), p) == 1)
  {
    hide Rem, IsPrime, Pow, Divides;
    PrimeAboveOne(p);
    CommitmentInRange(p, g, k, r);
    VerifyProduct(p, g, x, y, k, r, r, s);
    RemAdd(x * r, x * r, k * s, h - x * r, p - 1);
    SamePower(p, g, x * r + k * s, h);
    RemSmall(1, p);
    assert Pow(g, 0) == 1 by { PowZero(g); }
  }

  lemma PowZero(x: int)
    ensures Pow(x, 0) == 1
  {
  }

  lemma CommitmentInRange(p: nat, g: nat, k: nat, r: nat)
    requires IsPrime(p) && !Divides(p, g) && r == Rem(Pow(g, k), p)
    ensures 0 < r < p
  {
    hide IsPrime, Pow;
    PrimeAboveOne(p);
    PrimeDividesPow(p, g, k);
    RemBounds(Pow(g, k), p);
  }

  method ElgV1Sign(p: MpBarrett, n: MpBarrett, g: MpNumber, rng: RandomGenerator, hm: MpNumber, x: MpNumber)
      returns (ok: bool, r: array<mpw>, s: array<mpw>, ghost k: nat)
    requires Moduli(p, n) && p.size <= 0x1_0000_0000_0000
    requires g.Readable() && hm.Readable() && x.Readable() && g.size <= p.size && hm.size <= n.size && x.size <= n.size
    modifies rng
    ensures r.Length == s.Length == p.size
    ensures DrawSize(n.size, n.Modulus())
    ensures InvertibleBelow(old(rng.words), n.size, n.Modulus()) == if ok then Number(k, rng.words) else Nothing
    ensures ok ==> 1 < k < n.Modulus() - 1
    ensures ok ==> Signed1(p.Modulus(), n.Modulus(), g.Value(), x.Value(), hm.Value(), k,
                           Val(r[0..p.size]), Val(s[0..p.size]))
  {
    hide Val, P, Rem, IsInverse, Pow, Signed1, InvertibleBelow, DrawSize;
    var size := p.size;
    r, s := new mpw[size], new mpw[size];
    k := 0;
    var nonce, inverse := new mpw[size], new mpw[size];
    ok := Nonce(n, rng, nonce, inverse);
    if ok {
      k := Val(nonce[0..size]);
      ghost var ki := Val(inverse[0..size]);
      r := PowerOf(p, g, MpNumber(size, nonce));
      s := Solve1(n, MpNumber(size, inverse), hm, x, r);
      IsSignature1(p.Modulus(), n.Modulus(), g.Value(), x.Value(), hm.Value(), k, ki, Val(r[0..size]), Val(s[0..size]));
    }
  }

  method PowerOf(p: MpBarrett, g: MpNumber, k: MpNumber) returns (r: array<mpw>)
    requires p.Valid() && g.Readable() && k.Readable() && g.size <= p.size && k.Value() > 0
    ensures fresh(r) && r.Length == p.size && Val(r[0..p.size]) == Rem(Pow(g.Value(), k.Value()), p.Modulus())
  {
    hide Val, P, Rem, Pow;
    r := new mpw[p.size];
    PowMod(p, g, k, r);
  }

  /** What s is in variant 1, with the inverse ki of k. */
  ghost function Solution1(ki: int, h: int, x: int, r: int, m: int): int
    requires m > 0
  {
    Rem(ki * (h - x * r), m)
  }

  /** ki (h - x r), where the difference is formed by negating x r, adding n and then h. */
  method Solve1(n: MpBarrett, ki: MpNumber, hm: MpNumber, x: MpNumber, r: array<mpw>) returns (s: array<mpw>)
    requires n.Valid() && ki.Readable() && hm.Readable() && x.Readable()
    requires ki.size == n.size && hm.size <= n.size && x.size <= n.size && r.Length == n.size
    ensures fresh(s) && s.Length == n.size
    ensures Val(s[0..n.size]) == Solution1(ki.Value(), hm.Value(), x.Value(), Val(r[0..n.size]), n.Modulus())
  {
    hide Val, P, Rem, Solution1;
    var size := n.size;
    ghost var kv: int, h: int, xv: int, rv: int := ki.Value(), hm.Value(), x.Value(), Val(r[0..size]);
    ghost var xr := xv * rv;
    ghost var m := n.Modulus();
    var temp := new mpw[size];
    MulMod(n, x, MpNumber(size, r), temp);
    ghost var v := Val(temp[0..size]);
    RemBounds(xr, m);
    MpNeg(size, temp, 0);
    ghost var neg := Val(temp[0..size]);
    ghost var carry := MpAdd(size, temp, 0, n.modl, 0);
    Negated(n.modl[0..size], v, neg, temp[0..size], carry);
    ghost var sum := Val(temp[0..size]);
    AddMod(n, hm, MpNumber(size, temp), temp);
    s := new mpw[size];
    MulMod(n, MpNumber(size, temp), ki, s);
    Solved1(kv, h, xv, rv, v, m);
  }

  /** Negating in two's complement and adding n gives n - v. */
  lemma Negated(N: seq<mpw>, v: nat, neg: nat, T: seq<mpw>, carry: int)
    requires |T| == |N| && v < Val(N) && neg == (P(|N|) - v) % P(|N|) && (carry == 0 || carry == 1)
    requires Val(T) + carry * P(|N|) == neg + Val(N)
    ensures Val(T) == Val(N) - v
  {
    hide Val, P;
    ValBound(N);
    ValBound(T);
    var p := P(|N|);
    if v == 0 {
      DivModUnique(p - v, p, 1, 0);
    } else {
      DivModUnique(p - v, p, 0, p - v);
    }
  }

  lemma Solved1(k: int, h: int, x: int, r: int, v: int, m: int)
    requires m > 0 && v == Rem(x * r, m)
    ensures Rem(Rem(h + (m - v), m) * k, m) == Solution1(k, h, x, r, m)
  {
    hide Rem;
    var xr := x * r;
    RemRem(xr, m);
    RemPlus(h - v, m, 1);
    RemAdd(h, h, v, xr, m);
    RemRem(h + (m - v), m);
    RemMul(Rem(h + (m - v), m), h - xr, k, k, m);
    assert (h - xr) * k == k * (h - xr);
  }

  lemma IsSignature1(p: nat, n: nat, g: nat, x: nat, h: nat, k: nat, ki: nat, r: nat, s: nat)
    requires p > 0 && n > 2 && IsInverse(ki, k, n)
    requires r == Rem(Pow(g, k), p) && s == Rem(ki * (h - x * r), n)
    ensures Signed1(p, n, g, x, h, k, r, s)
  {
    hide Rem, Pow;
    var t := h - x * r;
    RemBounds(ki * t, n);
    RemRem(ki * t, n);
    RemMul(k, k, s, ki * t, n);
    assert k * (ki * t) == (ki * k) * t by {
      MulAssoc(k, ki, t);
      assert k * ki == ki * k;
    }
    RemMul(ki * k, 1, t, t, n);
  }

  method ElgV1Vrfy(p: MpBarrett, n: MpBarrett, g: MpNumber, hm: MpNumber, y: MpNumber, r: MpNumber, s: MpNumber)
      returns (rc: bool)
    requires p.Valid() && n.Sized()
    requires g.Readable() && hm.Readable() && y.Readable() && r.Readable() && s.Readable()
    requires g.size <= p.size && y.size <= p.size && r.size <= p.size
    ensures rc <==> InRange(p.Modulus(), n.Modulus(), r.Value(), s.Value())
                    && Verifies1(p.Modulus(), g.Value(), y.Value(), hm.Value(), r.Value(), s.Value())
    ensures rc ==> 0 < r.Value() < p.Modulus() && 0 < s.Value() < n.Modulus()
    ensures 0 < r.Value() < p.Modulus() && 0 < s.Value() < n.Modulus() ==>
              (rc <==> Rem(Pow(y.Value(), r.Value()) * Pow(r.Value(), s.Value()), p.Modulus()) ==
                       Rem(if hm.Value() > 0 then Pow(g.Value(), hm.Value())
                           else Pow(y.Value(), r.Value()), p.Modulus()))
  {
    hide Val, P, Rem, Pow;
    rc := CheckRange(p, n, r, s);
    if rc {
      var size := p.size;
      ghost var rv, sv := r.Value(), s.Value();
      var u1 := PowerOf(p, y, r);
      var u2 := PowerOf(p, r, s);
      ghost var a, b := Val(u1[0..size]), Val(u2[0..size]);
      MulMod(p, MpNumber(size, u1), MpNumber(size, u2), u2);
      ProductOfPowers(a, b, y.Value(), rv, rv, sv, p.Modulus());
      // for a zero exponent nothing is written over y^r
      PowMod(p, g, hm, u1);
      rc := MpEq(size, u1, 0, u2, 0);
    }
  }

  // ----- variant 3

  /** r = g^k and s = x r + k h modulo p - 1. */
  ghost predicate Signed3(p: nat, n: nat, g: nat, x: nat, h: nat, k: nat, r: nat, s: nat)
    requires p > 0 && n > 0
  {
    r == Rem(Pow(g, k), p) && s == Rem(x * r + k * h, n)
  }

  /** y^r r^h agrees with g^s; for a zero hash the buffer of r^h still holds what it held. */
  ghost predicate Verifies3(p: nat, g: nat, y: nat, h: nat, r: nat, s: nat, left: nat)
    requires p > 0
  {
    Rem(Pow(y, r) * PowerOver(left, r, h, p), p) == Rem(Pow(g, s), p)
  }

  /** A signature of variant 3 is accepted just when s is not zero; for a zero hash, whose power is not
      written, the buffer of that power must happen to hold a one modulo p. */
  lemma Completeness3(p: nat, g: nat, x: nat, y: nat, h: nat, k: nat, r: nat, s: nat, left: nat)
    requires Keys(p, g, x, y) && p > 2 && Signed3(p, p - 1, g, x, h, k, r, s)
    ensures InRange(p, p - 1, r, s) && Verifies3(p, g, y, h, r, s, left) <==> s > 0 && (h > 0 || Rem(left, p) == 1)
  {
    hide Rem, IsPrime, Pow, Divides;
    PrimeAboveOne(p);
    CommitmentInRange(p, g, k, r);
    VerifyProduct(p, g, x, y, k, r, r, h);
    RemBounds(x * r + k * h, p - 1);
    RemRem(x * r + k * h, p - 1);
    SamePower(p, g, x * r + k * h, s);
    if h > 0 {
      RemRem(Pow(r, h), p);
      RemMul(Pow(y, r), Pow(y, r), Rem(Pow(r, h), p), Pow(r, h), p);
    } else {
      PowZero(r);
      PublicKeyPower(p, g, x, y, r);
      OnlyOne(p, Pow(y, r), left);
    }
  }

  /** No power of the public key is divisible by p. */
  lemma PublicKeyPower(p: nat, g: nat, x: nat, y: nat, e: nat)
    requires Keys(p, g, x, y)
    ensures Pow(y, e) >= 0 && !Divides(p, Pow(y, e))
  {
    hide Rem, IsPrime, Pow, Divides;
    PrimeAboveOne(p);
    PrimeDividesPow(p, g, x);
    DivisibleIs(p, y);
    DivisibleIs(p, Pow(g, x));
    PrimeDividesPow(p, y, e);
  }

  /** A factor that changes no residue is one. */
  lemma OnlyOne(p: nat, a: nat, b: nat)
    requires IsPrime(p) && !Divides(p, a)
    ensures p > 1 && (Rem(a * b, p) == Rem(a * 1, p) <==> Rem(b, p) == 1)
  {
    hide Rem, IsPrime, Divides;
    PrimeAboveOne(p);
    RemSmall(1, p);
    RemSmall(0, p);
    if Rem(b, p) == 1 {
      RemMul(a, a, b, 1, p);
    }
    if Rem(a * b, p) == Rem(a * 1, p) {
      RemAdd(a * b, a * 1, a * 1, a * 1, p);
      assert a * (b - 1) == a * b - a * 1;
      DivisibleIs(p, a * (b - 1));
      EuclidsLemma(p, a, b - 1);
      DivisibleIs(p, b - 1);
      RemAdd(b - 1, 0, 1, 1, p);
    }
  }

  method ElgV3Sign(p: MpBarrett, n: MpBarrett, g: MpNumber, rng: RandomGenerator, hm: MpNumber, x: MpNumber)
      returns (ok: bool, r: array<mpw>, s: array<mpw>, ghost k: nat)
    requires Moduli(p, n)
    requires g.Readable() && hm.Readable() && x.Readable() && g.size <= p.size && hm.size <= n.size && x.size <= n.size
    modifies rng
    ensures r.Length == s.Length == p.size
    ensures DrawSize(p.size, p.Modulus())
    ensures DrawBelow(old(rng.words), p.size, p.Modulus()) == if ok then Number(k, rng.words) else Nothing
    ensures ok ==> 1 < k < p.Modulus() - 1
    ensures ok ==> Signed3(p.Modulus(), n.Modulus(), g.Value(), x.Value(), hm.Value(), k,
                           Val(r[0..p.size]), Val(s[0..p.size]))
  {
    hide Val, P, Rem, Pow, DrawBelow, DrawSize;
    var size := p.size;
    r, s := new mpw[size], new mpw[size];
    k := 0;
    var nonce, wksp := new mpw[size], new mpw[size];
    ok := MpBRnd(p, rng, nonce, wksp);
    if ok {
      k := Val(nonce[0..size]);
      r := PowerOf(p, g, MpNumber(size, nonce));
      s := Solve3(n, MpNumber(size, nonce), hm, x, r);
    }
  }

  method Solve3(n: MpBarrett, k: MpNumber, hm: MpNumber, x: MpNumber, r: array<mpw>) returns (s: array<mpw>)
    requires n.Valid() && k.Readable() && hm.Readable() && x.Readable()
    requires k.size == n.size && hm.size <= n.size && x.size <= n.size && r.Length == n.size
    ensures fresh(s) && s.Length == n.size
    ensures Val(s[0..n.size]) == Rem(x.Value() * Val(r[0..n.size]) + k.Value() * hm.Value(), n.Modulus())
  {
    hide Val, P, Rem;
    var size := n.size;
    ghost var a, b := x.Value() * Val(r[0..size]), k.Value() * hm.Value();
    var u1 := Times(n, x, MpNumber(size, r));
    var u2 := Times(n, k, hm);
    s := new mpw[size];
    AddMod(n, MpNumber(size, u2), MpNumber(size, u1), s);
    RemRem(a, n.Modulus());
    RemRem(b, n.Modulus());
    RemAdd(Rem(b, n.Modulus()), b, Rem(a, n.Modulus()), a, n.Modulus());
  }

  method ElgV3Vrfy(p: MpBarrett, n: MpBarrett, g: MpNumber, hm: MpNumber, y: MpNumber, r: MpNumber, s: MpNumber)
      returns (rc: bool, ghost left: nat)
    requires p.Valid() && n.Sized()
    requires g.Readable() && hm.Readable() && y.Readable() && r.Readable() && s.Readable()
    requires g.size <= p.size && y.size <= p.size && r.size <= p.size
    ensures rc <==> InRange(p.Modulus(), n.Modulus(), r.Value(), s.Value())
                    && Verifies3(p.Modulus(), g.Value(), y.Value(), hm.Value(), r.Value(), s.Value(), left)
    ensures rc ==> 0 < r.Value() < p.Modulus() && 0 < s.Value() < n.Modulus()
    ensures 0 < r.Value() < p.Modulus() && 0 < s.Value() < n.Modulus() ==>
              (rc <==> Rem(Pow(y.Value(), r.Value())
                           * (if hm.Value() > 0 then Pow(r.Value(), hm.Value()) else left), p.Modulus()) ==
                       Rem(Pow(g.Value(), s.Value()), p.Modulus()))
  {
    hide Val, P, Rem, Pow;
    left := 0;
    rc := CheckRange(p, n, r, s);
    if rc {
      var size := p.size;
      var v;
      ghost var unused, yv, rv := 0, y.Value(), r.Value();
      v, unused, left := PowerProduct(p, y, r, r, hm);
      PowerReduced(Pow(yv, rv), PowerOver(left, rv, hm.Value(), p.Modulus()), p.Modulus());
      var u := PowerOf(p, g, s);
      rc := MpEq(size, u, 0, v, 0);
      PowerOverReduced(Pow(yv, rv), left, rv, hm.Value(), p.Modulus());
    }
  }

  lemma PowerOverReduced(a: int, left: nat, x: nat, e: nat, m: nat)
    requires m > 0
    ensures Rem(a * PowerOver(left, x, e, m), m) == Rem(a * (if e > 0 then Pow(x, e) else left), m)
  {
    hide Rem, Pow;
    RemRem(Pow(x, e), m);
    RemMul(a, a, Rem(Pow(x, e), m), Pow(x, e), m);
  }

  lemma PowerReduced(a: int, b: int, m: int)
    requires m > 0
    ensures Rem(Rem(a, m) * b, m) == Rem(a * b, m)
  {
    hide Rem;
    RemRem(a, m);
    RemMul(Rem(a, m), a, b, b, m);
  }
}
