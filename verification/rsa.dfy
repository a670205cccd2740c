/** RSA (rsa.c): the public operation, and the private one directly and by the Chinese remainder theorem. */
module Rsa {
  import opened Arith
  import opened NumberTheory
  import opened Words
  import opened MpCompare
  import opened MpAddSub
  import opened MpMultiply
  import opened Barrett
  import opened BarrettArith
  import opened Power
  import opened MpNumbers

  // ----- keys

  /** An exponent pair for the modulus p q. */
  ghost predicate KeyPair(p: nat, q: nat, e: nat, d: nat) {
    && IsPrime(p) && IsPrime(q) && p != q && e > 0 && d > 0
    && Rem(e * d, p - 1) == Rem(1, p - 1) && Rem(e * d, q - 1) == Rem(1, q - 1)
  }

  /** The parts that stand for the private exponent d. */
  ghost predicate CrtParts(p: nat, q: nat, d: nat, dp: nat, dq: nat, qi: nat) {
    && IsPrime(p) && IsPrime(q) && p != q && d > 0 && dp > 0 && dq > 0
    && Rem(d, p - 1) == Rem(dp, p - 1) && Rem(d, q - 1) == Rem(dq, q - 1)
    && Rem(qi * q, p) == 1
  }

  // ----- operations

  method RsaPub(n: MpBarrett, e: MpNumber, m: MpNumber) returns (ok: bool, c: array<mpw>)
    requires n.Valid() && e.Readable() && m.Readable() && m.size <= n.size
    ensures ok <==> m.Value() < n.Modulus()
    ensures c.Length == n.size
    ensures ok && e.Value() > 0 ==> IsPower(Val(c[0..n.size]), m.Value(), e.Value(), n.Modulus())
  {
    hide Val, P, IsPower;
    c := new mpw[n.size];
    var ge := MpGex(m.size, m.data, 0, n.size, n.modl, 0);
    ok := !ge;
    if ok {
      PowMod(n, m, e, c);
    }
  }

  method RsaPri(n: MpBarrett, d: MpNumber, c: MpNumber) returns (ok: bool, m: array<mpw>)
    requires n.Valid() && d.Readable() && c.Readable() && c.size <= n.size
    ensures ok <==> c.Value() < n.Modulus()
    ensures m.Length == n.size
    ensures ok && d.Value() > 0 ==> IsPower(Val(m[0..n.size]), c.Value(), d.Value(), n.Modulus())
  {
    hide Val, P, IsPower;
    m := new mpw[n.size];
    var ge := MpGex(c.size, c.data, 0, n.size, n.modl, 0);
    ok := !ge;
    if ok {
      PowMod(n, c, d, m);
    }
  }

  /** c modulo the prime, raised to the prime's part of the exponent. */
  method PrimePart(p: MpBarrett, dp: MpNumber, c: MpNumber) returns (j: array<mpw>)
    requires p.Valid() && dp.Readable() && c.Readable() && dp.Value() > 0 && c.Value() < P(2 * p.size)
    ensures j.Length == p.size && fresh(j) && IsPower(Val(j[0..p.size]), c.Value(), dp.Value(), p.Modulus())
  {
    hide Val, P, IsPower, Rem;
    var k := p.size;
    var wide, reduced, wksp := new mpw[2 * k], new mpw[k], new mpw[2 * k + 2];
    j := new mpw[k];
    ghost var C := c.data[0..c.size];
    ResizedIsMod(2 * k, C);
    MpSetx(2 * k, wide, 0, c.size, c.data, 0);
    MpBMod(p, wide, 0, reduced, 0, wksp);
    PowMod(p, MpNumber(k, reduced), dp, j);
    PowerOfRemainder(Val(j[0..k]), c.Value(), dp.Value(), p.Modulus());
  }

  lemma PowerOfRemainder(v: int, x: int, e: nat, m: int)
    requires 0 < m && IsPower(v, Rem(x, m), e, m)
    ensures IsPower(v, x, e, m)
  {
    hide Rem;
    RemRem(x, m);
    RemPow(Rem(x, m), x, e, m);
  }

  /** h q + j2 with h = qi (j1 - j2) mod p. */
  ghost predicate Recombined(m: int, j1: int, j2: int, qi: int, p: int, q: int)
    requires p > 0
  {
    m == Rem(Rem(j1 - j2, p) * qi, p) * q + j2
  }

  method Recombine(p: MpBarrett, q: MpBarrett, qi: MpNumber, j1: array<mpw>, j2: array<mpw>) returns (m: array<mpw>)
    requires p.Valid() && q.Valid() && p.size == q.size && qi.Readable() && qi.size == p.size
    requires j1.Length == p.size && j2.Length == q.size && Val(j2[0..q.size]) < q.Modulus()
    requires j1 != j2 && j1 != p.modl && j1 != q.modl && j1 != qi.data
    modifies j1
    ensures m.Length == p.size + q.size
    ensures Recombined(Val(m[0..p.size + q.size]), old(Val(j1[0..p.size])), Val(j2[0..q.size]),
                       qi.Value(), p.Modulus(), q.Modulus())
    ensures Val(m[0..p.size + q.size]) < p.Modulus() * q.Modulus()
  {
    hide Val, P, Rem, Recombined;
    var k := p.size;
    ghost var v1: int, v2: int, pv: int := Val(j1[0..k]), Val(j2[0..k]), p.Modulus();
    SubMod(p, MpNumber(k, j1), MpNumber(k, j2), j1);
    MulMod(p, MpNumber(k, j1), qi, j1);
    ghost var h: int, qv: int := Val(j1[0..k]), q.Modulus();
    m := new mpw[k + k];
    MpMul(m, 0, k, j1, 0, k, q.modl, 0);
    assert m[0..0 + k + k] == m[0..k + k];
    ghost var J := j2[0..k];
    RemBounds(Rem(v1 - v2, pv) * qi.Value(), pv);
    RecombinationFits(h, qv, v2, pv, p.modl[0..k], q.modl[0..k]);
    ResizedIsMod(k + k, J);
    ShortFits(J, k + k);
    ghost var carry := MpAddx(k + k, m, 0, k, j2, 0);
    NoCarryOut(m[0..k + k], h * qv + v2, carry);
    RecombinedIs(Val(m[0..k + k]), h, v1, v2, qi.Value(), pv, qv);
  }

  lemma RecombinedIs(m: int, h: int, j1: int, j2: int, qi: int, p: int, q: int)
    requires p > 0 && h == Rem(Rem(j1 - j2, p) * qi, p) && m == h * q + j2
    ensures Recombined(m, j1, j2, qi, p, q)
  {
  }

  lemma RecombinationFits(h: int, q: int, j: int, p: int, ps: seq<mpw>, qs: seq<mpw>)
    requires 0 <= h < p && 0 <= j < q && p == Val(ps) && q == Val(qs)
    ensures h * q + j < p * q < P(|ps| + |qs|)
  {
    hide Val, P;
    ValBound(ps);
    ValBound(qs);
    PAdd(|ps|, |qs|);
    MulStep(h, p, q);
    MulBound(p, q, P(|ps|) - 1, P(|qs|) - 1);
    assert (P(|ps|) - 1) * (P(|qs|) - 1) == P(|ps|) * P(|qs|) - P(|ps|) - P(|qs|) + 1;
  }

  /** The private operation by the parts of the key. */
  method RsaPriCrt(n: MpBarrett, p: MpBarrett, q: MpBarrett, dp: MpNumber, dq: MpNumber, qi: MpNumber, c: MpNumber,
                   ghost d: nat) returns (ok: bool, m: array<mpw>)
    requires n.Valid() && p.Valid() && q.Valid() && p.size == q.size && n.size == p.size + q.size
    requires dp.Readable() && dq.Readable() && qi.Readable() && c.Readable() && qi.size == p.size
    requires n.Modulus() == p.Modulus() * q.Modulus()
    requires CrtParts(p.Modulus(), q.Modulus(), d, dp.Value(), dq.Value(), qi.Value())
    ensures ok <==> c.Value() < n.Modulus()
    ensures ok ==> m.Length == n.size && IsPower(Val(m[0..n.size]), c.Value(), d, n.Modulus())
  {
    hide Val, P, IsPower, Rem, IsPrime;
    m := new mpw[0];
    var ge := MpGex(c.size, c.data, 0, n.size, n.modl, 0);
    ok := !ge;
    if ok {
      ValBound(n.modl[0..n.size]);
      assert n.size == 2 * p.size == 2 * q.size;
      var j1 := PrimePart(p, dp, c);
      var j2 := PrimePart(q, dq, c);
      ghost var v1: int, v2: int := Val(j1[0..p.size]), Val(j2[0..q.size]);
      PowerBelow(v2, c.Value(), dq.Value(), q.Modulus());
      m := Recombine(p, q, qi, j1, j2);
      CrtCorrect(Val(m[0..n.size]), v1, v2, p.Modulus(), q.Modulus(), c.Value(), d, dp.Value(), dq.Value(), qi.Value());
    }
  }

  lemma PowerBelow(v: int, x: int, e: nat, m: int)
    requires 0 < m && IsPower(v, x, e, m)
    ensures 0 <= v < m
  {
  }

  lemma CrtCorrect(m: nat, j1: int, j2: int, p: nat, q: nat, c: nat, d: nat, dp: nat, dq: nat, qi: nat)
    requires CrtParts(p, q, d, dp, dq, qi) && m < p * q
    requires IsPower(j1, c, dp, p) && IsPower(j2, c, dq, q) && Recombined(m, j1, j2, qi, p, q)
    ensures p * q > 0 && IsPower(m, c, d, p * q)
  {
    hide Rem, IsPrime;
    PrimeAboveOne(p);
    PrimeAboveOne(q);
    FermatExponent(p, c, d, dp);
    FermatExponent(q, c, d, dq);
    RemRem(Pow(c, dp), p);
    RemRem(Pow(c, dq), q);
    // modulo q
    var h := Rem(Rem(j1 - j2, p) * qi, p);
    RemPlus(j2, q, h);
    // modulo p
    RemRem(Rem(j1 - j2, p) * qi, p);
    RemRem(j1 - j2, p);
    var t := Rem(j1 - j2, p);
    RemMul(h, t * qi, q, q, p);
    assert (t * qi) * q == t * (qi * q);
    RemSmall(1, p);
    RemMul(t, j1 - j2, qi * q, 1, p);
    RemAdd(h * q, j1 - j2, j2, j2, p);
    ChineseRemainder(p, q, m, Pow(c, d));
    RemSmall(m, p * q);
  }

  // ----- round trips

  /** Decrypting what was encrypted gives the message back. */
  lemma RoundTrip(p: nat, q: nat, e: nat, d: nat, m: nat, c: int, m': int)
    requires KeyPair(p, q, e, d) && m < p * q
    requires IsPower(c, m, e, p * q) && IsPower(m', c, d, p * q)
    ensures m' == m
  {
    hide Rem, IsPrime;
    PrimeAboveOne(p);
    PrimeAboveOne(q);
    MulPos(e, d);
    RemRem(Pow(m, e), p * q);
    RemPow(c, Pow(m, e), d, p * q);
    PowMul(m, e, d);
    FermatExponent(p, m, e * d, 1);
    FermatExponent(q, m, e * d, 1);
    assert Pow(m, 1) == m;
    ChineseRemainder(p, q, Pow(m, e * d), m);
    RemSmall(m, p * q);
  }

  /** There is one number below p q that is c^d modulo both primes. */
  lemma CrtUnique(p: nat, q: nat, m: nat, m': nat)
    requires IsPrime(p) && IsPrime(q) && p != q && m < p * q && m' < p * q
    requires Rem(m, p) == Rem(m', p) && Rem(m, q) == Rem(m', q)
    ensures m == m'
  {
    hide Rem, IsPrime;
    ChineseRemainder(p, q, m, m');
    RemSmall(m, p * q);
    RemSmall(m', p * q);
  }

  // ----- verification

  /** The number m raised to the public exponent is c; for a zero exponent the buffer of the power
      still holds what it held. */
  ghost predicate Verified(n: nat, e: nat, m: nat, c: nat, left: nat) {
    m < n && c < n && c == PowerOver(left, m, e, n)
  }

  method RsaVrfy(n: MpBarrett, e: MpNumber, m: MpNumber, c: MpNumber) returns (rc: bool, ghost left: nat)
    requires n.Valid() && e.Readable() && m.Readable() && c.Readable() && m.size <= n.size
    ensures rc <==> Verified(n.Modulus(), e.Value(), m.Value(), c.Value(), left)
    ensures rc ==> m.Value() < n.Modulus() && c.Value() < n.Modulus()
    ensures m.Value() < n.Modulus() && c.Value() < n.Modulus() ==>
              (rc <==> c.Value() ==
                       if e.Value() > 0 then Rem(Pow(m.Value(), e.Value()), n.Modulus()) else left)
  {
    hide Val, P, Rem, Pow;
    left := 0;
    var ge := MpGex(m.size, m.data, 0, n.size, n.modl, 0);
    if ge {
      return false, left;
    }
    ge := MpGex(c.size, c.data, 0, n.size, n.modl, 0);
    if ge {
      return false, left;
    }
    var temp := new mpw[n.size];
    left := Val(temp[0..n.size]);
    PowMod(n, m, e, temp);
    rc := MpEqx(n.size, temp, 0, c.size, c.data, 0);
  }

  /** A signature is accepted as the first number and the signed one as the second. */
  lemma SignatureAccepted(p: nat, q: nat, e: nat, d: nat, signed: nat, signature: nat, left: nat)
    requires KeyPair(p, q, e, d) && signed < p * q && IsPower(signature, signed, d, p * q)
    ensures IsPower(signed, signature, e, p * q) && Verified(p * q, e, signature, signed, left)
  {
    hide Rem, IsPrime;
    RemBounds(Pow(signed, d), p * q);
    RemBounds(Pow(signature, e), p * q);
    var back := Rem(Pow(signature, e), p * q);
    assert e * d == d * e;
    RoundTrip(p, q, d, e, signed, signature, back);
  }

  /** The other way round, as the parameter names have it, a signature c of m is accepted just when
      raising m twice to the public exponent gives m back. */
  lemma DocumentedOrder(p: nat, q: nat, e: nat, d: nat, m: nat, c: nat, left: nat)
    requires KeyPair(p, q, e, d) && m < p * q && IsPower(c, m, d, p * q)
    ensures 0 <= e * e && (Verified(p * q, e, m, c, left) <==> Rem(Pow(m, e * e), p * q) == m)
  {
    hide Rem, IsPrime;
    var n := p * q;
    PowMul(m, e, e);
    RemBounds(Pow(m, d), n);
    RemBounds(Pow(m, e), n);
    var c' := Rem(Pow(m, e), n);
    SignatureAccepted(p, q, e, d, m, c, left);
    RemRem(Pow(m, e), n);
    RemPow(c', Pow(m, e), e, n);
    if Rem(Pow(m, e * e), n) == m {
      RoundTrip(p, q, e, d, c', m, c);
    }
  }

  /** So it can be refused: for the key with n = 33, e = 3 and d = 7, the message 2 and its signature 29. */
  lemma DocumentedOrderRefused(left: nat)
    ensures KeyPair(3, 11, 3, 7) && IsPower(29, 2, 7, 33) && !Verified(33, 3, 2, 29, left)
  {
    assert Pow(2, 3) == 8;
    assert Pow(2, 7) == 128;
  }
}
