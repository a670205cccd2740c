/** Primes p with p mod q = 1 (mpprime.c): p = 2 q s + 1 for a random s. */
module PrimeConstruction {
  import opened Arith
  import opened NumberTheory
  import opened Words
  import opened MpCompare
  import opened MpAddSub
  import opened MpMultiply
  import opened MpShift
  import opened MpGcd
  import opened Barrett
  import opened BarrettArith
  import opened RandomNumbers
  import opened MillerRabin
  import opened PrimeSearch

  /** What is asked of the cofactor: 1 that q does not divide it, 2 that it is a prime; both make it odd. */
  ghost predicate CofactorMeets(cofactor: nat, s: nat, q: nat, product: nat) {
    && (cofactor == 1 || cofactor == 2 ==> s % 2 == 1)
    && (cofactor == 1 && q <= s ==> Gcd(s, q) == 1)
    && (cofactor == 2 ==> Gcd(s, product) == 1)
  }

  ghost predicate HasBits(n: nat, bits: nat) {
    bits > 0 && P2(bits - 1) <= n < P2(bits)
  }

  /** A random s of exactly the given bits, made odd if asked for. */
  method DrawOfBits(s: MpBarrett, sbits: nat, odd: bool, rng: RandomGenerator) returns (ok: bool)
    requires s.Sized() && WordsFor(s.size, sbits) && sbits > 1
    modifies rng, s.modl
    ensures if ok then |rng.words| < old(|rng.words|) else rng.words == old(rng.words)
    ensures ok ==> HasBits(s.Modulus(), sbits) && (odd ==> s.Modulus() % 2 == 1)
  {
    hide Val, P, P2, HasBits, Candidate;
    var high, low := new mpw[s.size], new mpw[s.size];
    BitRange(sbits);
    ok := MpPRndBits(s, sbits, false, Absent, Absent, rng, high, low);
    if ok {
      LsbWithin(s.Modulus(), sbits);
      if odd {
        MpSetLsb(s.size, s.modl, 0);
      }
    }
  }

  /** A random s of exactly the given bits that meets the demands on the cofactor, or another round. */
  method DrawCofactor(s: MpBarrett, sbits: nat, q: MpBarrett, cofactor: nat, rng: RandomGenerator,
                      table: seq<array<mpw>>)
      returns (step: Step)
    requires s.Sized() && q.Sized() && s.modl != q.modl && q.Modulus() > 0
    requires WordsFor(s.size, sbits) && sbits > 1 && SmallPrimeProducts(table)
    requires forall i :: 0 <= i < |table| ==> table[i] != s.modl
    modifies rng, s.modl
    ensures |rng.words| <= old(|rng.words|)
    ensures step != Exhausted ==> |rng.words| < old(|rng.words|) && HasBits(s.Modulus(), sbits)
    ensures step == Accept ==> CofactorMeets(cofactor, s.Modulus(), q.Modulus(), ProductFor(table, s.size))
  {
    hide Val, P, P2, Gcd, SmallPrimeProducts, ProductFor, HasBits;
    var ok := DrawOfBits(s, sbits, cofactor == 1 || cofactor == 2, rng);
    if !ok {
      return Exhausted;
    }
    if cofactor == 1 {
      ok := PrimeToCofactor(s, q);
    } else if cofactor == 2 {
      var full := new mpw[s.size];
      ok := NoSmallFactor(s, table, full);
    }
    step := if ok then Accept else Retry;
  }

  lemma BitRange(bits: nat)
    requires bits > 1
    ensures 0 < P2(bits - 1) < P2(bits) - 1
    ensures Lower(bits, Absent) == P2(bits - 1) && Upper(bits, Absent) == P2(bits) - 1
  {
    hide P2;
    P2Succ(bits - 1);
    P2Succ(bits - 2);
  }

  lemma LsbWithin(v: nat, bits: nat)
    requires bits > 1 && P2(bits - 1) <= v <= P2(bits) - 1
    ensures HasBits(v, bits) && HasBits(v + (1 - v % 2), bits)
    ensures (v + (1 - v % 2)) % 2 == 1
  {
    hide P2;
    P2Succ(bits - 1);
  }

  /** When q does not exceed s, whether the two are coprime. */
  method PrimeToCofactor(s: MpBarrett, q: MpBarrett) returns (ok: bool)
    requires s.Sized() && q.Sized() && q.Modulus() > 0 && s.Modulus() % 2 == 1
    ensures ok <==> q.Modulus() <= s.Modulus() ==> Gcd(s.Modulus(), q.Modulus()) == 1
  {
    hide Val, P, Gcd;
    ok := true;
    var le := MpGex(s.size, s.modl, 0, q.size, q.modl, 0);
    if le {
      var n := s.size;
      var x, y := new mpw[n], new mpw[n];
      MpCopy(n, x, 0, s.modl, 0);
      ghost var Q := q.modl[0..q.size];
      ValBound(s.modl[0..n]);
      ResizedIsMod(n, Q);
      MpSetx(n, y, 0, q.size, q.modl, 0);
      ok := Coprime(n, x, y);
    }
  }

  /** Stores 2 q s + 1 in p, which can hold it; tells whether it has all the bits. */
  method FormCandidate(p: MpBarrett, bits: nat, s: MpBarrett, sbits: nat, q: MpBarrett) returns (long: bool)
    requires p.Sized() && s.Sized() && q.Sized() && p.modl != s.modl && p.modl != q.modl
    requires WordsFor(p.size, bits) && bits > sbits + 1
    requires HasBits(s.Modulus(), sbits) && q.Modulus() < P2(bits - sbits - 1)
    modifies p.modl
    ensures p.Modulus() == 2 * (s.Modulus() * q.Modulus()) + 1 < P2(bits)
    ensures long <==> HasBits(p.Modulus(), bits)
  {
    hide Val, P, P2;
    var n := p.size;
    ghost var sv, qv := s.Modulus(), q.Modulus();
    var product := new mpw[s.size + q.size];
    MpMul(product, 0, s.size, s.modl, 0, q.size, q.modl, 0);
    ghost var all := product[0..s.size + q.size];
    ProductBits(n, bits, sbits, sv, qv);
    ResizedIsMod(n, all);
    MpSetx(n, p.modl, 0, s.size + q.size, product, 0);
    ghost var carry := MpMulTwo(n, p.modl, 0);
    NoCarryOut(p.modl[0..n], 2 * (sv * qv), carry);
    carry := MpAddw(n, p.modl, 0, 1);
    NoCarryOut(p.modl[0..n], 2 * (sv * qv) + 1, carry);
    var count := MpBits(n, p.modl, 0);
    BitCount(p.Modulus(), count, bits - 1);
    long := count >= bits;
  }

  lemma ProductBits(n: nat, bits: nat, sbits: nat, s: nat, q: nat)
    requires WordsFor(n, bits) && bits > sbits + 1 && HasBits(s, sbits) && q < P2(bits - sbits - 1)
    ensures 0 <= s * q && 2 * (s * q) + 1 < P2(bits) <= P(n)
  {
    hide P2, P;
    var e, f := P2(sbits), P2(bits - sbits - 1);
    P2Add(sbits, bits - sbits - 1);
    P2Succ(bits - 1);
    BitsOfWords(n, bits, MP_WBITS * n - bits);
    MulStep(s, e, f);
    MulBound(s, q, s, f);
    MulPos(s, f) by { P2Mono(0, sbits - 1); P2Succ(0); }
    assert s * q <= s * f <= e * f - f;
  }

  /** What a finished search has found: p = 2 q s + 1 with its bits, and what is asked of s. */
  ghost predicate Constructed(p: nat, s: nat, q: nat, bits: nat, sbits: nat, cofactor: nat, product: nat,
                              sproduct: nat) {
    && p == 2 * (s * q) + 1 && HasBits(p, bits) && HasBits(s, sbits)
    && CofactorMeets(cofactor, s, q, sproduct)
    && Gcd(p, product) == 1
  }

  /** What has been constructed, in the terms of the request: the numbers of bits, and for the two kinds of cofactor
      that q does not divide s, or that s has no prime factor in common with the table; both are odd. */
  lemma ConstructedMeans(p: nat, s: nat, q: nat, bits: nat, sbits: nat, cofactor: nat, product: nat, sproduct: nat)
    requires Constructed(p, s, q, bits, sbits, cofactor, product, sproduct)
    ensures p == 2 * (s * q) + 1 && BitLength(p) == bits && BitLength(s) == sbits
    ensures cofactor == 1 || cofactor == 2 ==> s % 2 == 1
    ensures cofactor == 1 && q > 1 ==> !Divides(q, s) && (q <= s ==> Gcd(s, q) == 1)
    ensures cofactor == 2 ==> Gcd(s, sproduct) == 1
    ensures Gcd(p, product) == 1
  {
    hide P2, Gcd, BitLength;
    LengthByBits(p, bits);
    LengthByBits(s, sbits);
    P2Mono(0, sbits - 1);
    P2Succ(0);
    if cofactor == 1 && q > 1 {
      if q <= s {
        if Divides(q, s) {
          DividesIntro(q, q, 1);
          GcdDivisors(s, q, q);
          RemSmall(1, q);
        }
      } else {
        RemSmall(s, q);
      }
    }
  }

  lemma LengthByBits(n: nat, bits: nat)
    requires HasBits(n, bits)
    ensures BitLength(n) == bits
  {
    hide P2, BitLength;
    BitLengthAtMost(n, bits);
    BitLengthAtMost(n, bits - 1);
  }

  // ----- the comparison with f

  /** What the comparison with f has let pass: f is coprime to the operand, which is left over from before and
      is the product of small primes when p is longer than the table. */
  ghost predicate Compared(f: Optional, left: nat, longer: bool, product: nat)
    requires f.Readable()
    reads if f.Present? then {f.data} else {}
  {
    f.Present? ==> (left > 0 ==> Gcd(f.Value(0), left) == 1) && (longer ==> left == product)
  }

  /** Compares f, which overwrites p - 1, with what the second operand holds. A zero there is no operand that
      the greatest common divisor can handle, and any verdict is possible. */
  method CompareWithF(p: MpBarrett, f: Optional, operand: array<mpw>) returns (ok: bool)
    requires p.Sized() && p.Modulus() > 1 && operand.Length >= p.size && f.Readable()
    requires f.Present? ==> f.size <= p.size && f.Value(0) > 0
    ensures f.Present? && Val(operand[0..p.size]) > 0 ==> (ok <==> Gcd(f.Value(0), Val(operand[0..p.size])) == 1)
    ensures !f.Present? ==> ok
  {
    hide Val, P, Gcd;
    ok := true;
    if f.Present? {
      var n := p.size;
      var x := new mpw[n];
      MpCopy(n, x, 0, p.modl, 0);
      ghost var borrow := MpSubw(n, x, 0, 1);
      ghost var F := f.data[0..f.size];
      MpSetx(n, x, 0, f.size, f.data, 0);
      ShortFits(F, n);
      ResizedIsMod(n, F);
      var zero := MpZ(n, operand, 0);
      if zero {
        ok := *;
      } else {
        ok := Coprime(n, x, operand);
      }
    }
  }

  /** The promise that p - 1 is coprime to f is kept just when f is odd and coprime to q and to s. */
  lemma PromiseKept(p: nat, s: nat, q: nat, f: nat)
    requires p == 2 * (s * q) + 1 && f > 0
    ensures Gcd(p - 1, f) == 1 <==> f % 2 == 1 && Gcd(q, f) == 1 && Gcd(s, f) == 1
  {
    hide Gcd;
    CoprimeProduct(s, q, f);
    CoprimeProduct(2, s * q, f);
    CoprimeToTwo(f);
  }

  /** For a p longer than the table, the comparison never refuses f = q when q is coprime to the product, although
      q divides p - 1. With s a multiple of the product, trial division does not refuse p either. */
  lemma NotCoprimeYetKept(q: nat, product: nat, j: nat)
    requires q > 2 && product > 0 && Gcd(q, product) == 1
    ensures var s, f := j * product, q;
            0 <= s * q && var p := 2 * (s * q) + 1;
            Gcd(p, product) == 1 && Gcd(f, product) == 1 && Gcd(p - 1, f) == f
  {
    hide Gcd, Divides;
    MulMono(0, j, product);
    var s := j * product;
    MulMono(0, s, q);
    assert 2 * (s * q) == (2 * j * q) * product;
    MulMono(0, 2 * j, q);
    OneMoreCoprime(product, 2 * j * q);
    assert 2 * (s * q) == (2 * s) * q;
    MultipleGcd(2 * s, q);
  }

  lemma MultipleGcd(k: nat, q: nat)
    requires q > 0
    ensures 0 <= k * q && Gcd(k * q, q) == q
  {
    MulMono(0, k, q);
    DivModUnique(k * q, q, k, 0);
    assert Gcd(k * q, q) == Gcd(q, 0);
  }

  /** W to the power four, and the last product of the library, of the primes from 3 to 1471 (mpprime.c). */
  const W4: nat := 0x1_0000000000000000_0000000000000000_0000000000000000_0000000000000000
  const SPP_32: nat :=
    ((((((0x2465a7bd85011e1c_9e0527929fff268c_82ef7efa416863ba_a5acdb0971dba0cc * W4
    + 0xac3ee4999345029f_2cf810b99e406aac_5fce5dd69d1c717d_aea5d18ab913f456) * W4
    + 0x505679bc91c57d46_d9888857862b36e2_ede2e473c1f0ab35_9da25271affe15ff) * W4
    + 0x240e299d0b04f4cd_0e4d7c0e47b1a7ba_007de89aae848fd5_bdcd7f9815564eb0) * W4
    + 0x60ae14f19cb50c29_1f0bbd8ed1c4c7f8_fc5fba5166200193_9b532d92dac844a8) * W4
    + 0x431d400c832d039f_5f900b278a75219c_2986140c79045d77_59540854c31504dc) * W4
    + 0x56f1df5eebe7bee4_47658b917bf696d6_927f2e2428fbeb34_0e515cb9835d6387) * W4
    + 0x1be8bbe09cf13445_799f2e6778815157_1a93b4c1eee55d1b_9072e0b2f5c4607f

  lemma LastProduct()
    ensures SPP_32 > 0 && Gcd(1481, SPP_32) == 1
  {
    hide Gcd;
    assert SPP_32 % 1481 == 1449;
    ResidueCoprime(SPP_32);
  }

  lemma ResidueCoprime(n: nat)
    requires n % 1481 == 1449
    ensures Gcd(1481, n) == 1
  {
    GcdSymmetric(1481, n);
    assert Gcd(n, 1481) == Gcd(1481, 1449);
    CoprimeResidue();
  }

  lemma CoprimeResidue()
    ensures Gcd(1481, 1449) == 1
  {
    assert Gcd(1481, 1449) == Gcd(1449, 32) == Gcd(32, 9) == Gcd(9, 5);
    assert Gcd(9, 5) == Gcd(5, 4) == Gcd(4, 1) == Gcd(1, 0);
  }

  /** Three times the product has 2047 bits, and the number made from it 2059 bits in 33 words. */
  lemma LastProductBits()
    ensures HasBits(3 * SPP_32, 2047)
    ensures var p := 2 * (3 * SPP_32 * 1481) + 1; HasBits(p, 2059) && P(32) <= p < P(33)
  {
    hide P, P2;
    PSucc(3);
    PSucc(2);
    PSucc(1);
    PSucc(0);
    assert P(4) == W4;
    PAdd(4, 4);
    assert P(8) == W4 * W4;
    PAdd(8, 8);
    assert P(16) == W4 * W4 * W4 * W4;
    PAdd(16, 16);
    assert P(32) == W4 * W4 * W4 * W4 * W4 * W4 * W4 * W4;
    PSucc(32);
    PIsP2(32);
    P2Succ(2047);
    P2Succ(2046);
    P2Succ(2058);
    P2Add(2048, 10);
    PowerTen();
  }

  lemma PowerTen()
    ensures P2(10) == 1024
  {
    P2Add(5, 5);
    assert P2(5) == 32;
  }

  /** An input: q = f = 1481, and s three times the last product, make a p of 33 words that has all its bits,
      that trial division lets pass and that the comparison keeps, although 1481 divides p - 1. */
  lemma KeptWithCommonFactor()
    ensures var product, f, q := SPP_32, 1481, 1481;
            var s := 3 * product;
            0 <= s * q && var p := 2 * (s * q) + 1;
            && Constructed(p, s, q, 2059, 2047, 0, product, product) && P(32) <= p < P(33)
            && Gcd(f, product) == 1 && Gcd(p - 1, f) == 1481
  {
    hide Gcd, P, P2;
    LastProduct();
    NotCoprimeYetKept(1481, SPP_32, 3);
    LastProductBits();
  }

  /** A candidate that trial division and the comparison with f have not refused. */
  method DrawCandidate(p: MpBarrett, bits: nat, q: MpBarrett, s: MpBarrett, sbits: nat, cofactor: nat,
                       f: Optional, rng: RandomGenerator, table: seq<array<mpw>>)
      returns (step: Step, ghost left: nat)
    requires p.Sized() && s.Sized() && q.Sized() && p.size < W && s.size < W
    requires p.modl != s.modl && p.modl != q.modl && s.modl != q.modl
    requires WordsFor(p.size, bits) && WordsFor(s.size, sbits) && sbits > 1 && bits > sbits + 1
    requires 0 < q.Modulus() < P2(bits - sbits - 1)
    requires SmallPrimeProducts(table)
    requires forall i :: 0 <= i < |table| ==> table[i] != s.modl && table[i] != p.modl
    requires f.Readable() && (f.Present? ==> f.size <= p.size && f.Value(0) > 0 && f.data != p.modl && f.data != s.modl)
    modifies rng, p.modl, s.modl
    ensures |rng.words| <= old(|rng.words|)
    ensures step != Exhausted ==> |rng.words| < old(|rng.words|)
    ensures step == Accept ==>
              Constructed(p.Modulus(), s.Modulus(), q.Modulus(), bits, sbits, cofactor,
                          ProductFor(table, p.size), ProductFor(table, s.size))
    ensures step == Accept ==> p.Usable() && (cofactor == 2 ==> s.Usable())
    ensures step == Accept ==> Compared(f, left, p.size > |table|, ProductFor(table, p.size))
  {
    hide Val, P, P2, Gcd, SmallPrimeProducts, ProductFor, CofactorMeets, HasBits;
    left := 0;
    step := DrawCofactor(s, sbits, q, cofactor, rng, table);
    if step == Accept {
      CofactorUsable(s.size, sbits, cofactor, s.Modulus(), q.Modulus(), ProductFor(table, s.size));
      var ok := FormCandidate(p, bits, s, sbits, q);
      if ok {
        CandidateIsUsable(p.size, bits, p.Modulus());
        var operand := new mpw[p.size];
        ok := NoSmallFactor(p, table, operand);
        left := Val(operand[0..p.size]);
        if ok {
          ok := CompareWithF(p, f, operand);
        }
      }
      step := if ok then Accept else Retry;
    }
  }

  lemma CandidateIsUsable(size: nat, bits: nat, n: nat)
    requires WordsFor(size, bits) && bits > 1 && HasBits(n, bits) && n % 2 == 1
    ensures P(size - 1) < n
  {
    hide P, P2;
    CandidateUsable(size, bits, P2(bits - 1), false, n);
  }

  lemma CofactorUsable(size: nat, sbits: nat, cofactor: nat, s: nat, q: nat, product: nat)
    requires WordsFor(size, sbits) && sbits > 1 && HasBits(s, sbits) && CofactorMeets(cofactor, s, q, product)
    ensures cofactor == 2 ==> P(size - 1) < s
  {
    hide P, P2, HasBits;
    if cofactor == 2 {
      CandidateIsUsable(size, sbits, s);
    }
  }

  /** One round of the search. */
  method TryConOne(p: MpBarrett, bits: nat, t: int, q: MpBarrett, s: MpBarrett, sbits: nat, st: int, cofactor: nat,
                   f: Optional, rng: RandomGenerator, table: seq<array<mpw>>)
      returns (step: Step, ghost used: seq<mpw>, ghost sused: seq<mpw>, ghost left: nat)
    requires p.Sized() && s.Sized() && q.Sized() && p.size < W && s.size < W
    requires p.modl != s.modl && p.modl != q.modl && s.modl != q.modl
    requires WordsFor(p.size, bits) && WordsFor(s.size, sbits) && sbits > 1 && bits > sbits + 1
    requires 0 < q.Modulus() < P2(bits - sbits - 1)
    requires SmallPrimeProducts(table)
    requires forall i :: 0 <= i < |table| ==> table[i] != s.modl && table[i] != p.modl
    requires f.Readable() && (f.Present? ==> f.size <= p.size && f.Value(0) > 0 && f.data != p.modl && f.data != s.modl)
    modifies rng, p.modl, s.modl
    ensures |rng.words| <= old(|rng.words|)
    ensures step == Accept || step == Retry ==> |rng.words| < old(|rng.words|)
    ensures step == Accept ==>
              Constructed(p.Modulus(), s.Modulus(), q.Modulus(), bits, sbits, cofactor,
                          ProductFor(table, p.size), ProductFor(table, s.size))
    ensures step == Accept ==> Compared(f, left, p.size > |table|, ProductFor(table, p.size))
    ensures step == Accept ==> Vetted(p, t, used)
    ensures step == Accept && cofactor == 2 ==> Vetted(s, st, sused)
  {
    hide Val, P, P2, SmallPrimeProducts, ProductFor, Constructed, Vetted, IsPrime, MuExact, Compared;
    step, left := DrawCandidate(p, bits, q, s, sbits, cofactor, f, rng, table);
    sused := rng.words;
    if step == Accept && cofactor == 2 {
      step := TestCandidate(s, st, rng);
    }
    used := rng.words;
    if step == Accept {
      step := TestCandidate(p, t, rng);
    }
  }

  /** The bits that s must have for 2 q s to have at most those of p. */
  method BitsOfCofactor(bits: nat, q: MpBarrett) returns (sbits: nat)
    requires q.Sized() && q.Modulus() > 2 && 3 < bits && q.Modulus() < P2(bits - 3)
    ensures 1 < sbits < bits - 1 && HasBits(q.Modulus(), bits - sbits - 1)
  {
    hide Val, P, P2, HasBits;
    var qbits := MpBits(q.size, q.modl, 0);
    BitCount(q.Modulus(), qbits, bits - 3);
    CountIsBits(q.Modulus(), qbits);
    sbits := bits - qbits - 1;
  }

  lemma BitsBelow(n: nat, bits: nat)
    requires HasBits(n, bits)
    ensures n < P2(bits)
  {
  }

  /** A prime p of the given bits with p mod q = 1, and r = 2 s cut to the words of s. */
  method MpPRndConOne(bits: nat, t: int, q: MpBarrett, f: Optional, cofactor: nat, st: int, rng: RandomGenerator,
                      table: seq<array<mpw>>)
      returns (outcome: Outcome, p: MpBarrett, r: array<mpw>, ghost s: MpBarrett, ghost sbits: nat,
               ghost used: seq<mpw>, ghost sused: seq<mpw>, ghost left: nat)
    requires q.Sized() && q.Modulus() > 2 && 3 < bits < W && q.Modulus() < P2(bits - 3) && SmallPrimeProducts(table)
    requires f.Readable() && (f.Present? ==> MP_WBITS * f.size < bits + MP_WBITS && f.Value(0) > 0)
    modifies rng
    ensures fresh(p) && fresh(p.modl) && p.Sized() && WordsFor(p.size, bits) && outcome != Refused
    ensures fresh(s) && fresh(s.modl) && s.Sized() && WordsFor(s.size, sbits) && r.Length == s.size
    ensures sbits + 1 < bits && HasBits(q.Modulus(), bits - sbits - 1)
    ensures outcome == Found ==>
              Constructed(p.Modulus(), s.Modulus(), q.Modulus(), bits, sbits, cofactor,
                          ProductFor(table, p.size), ProductFor(table, s.size))
    ensures outcome == Found ==> Compared(f, left, p.size > |table|, ProductFor(table, p.size))
    ensures f.Present? && p.size > |table| && Gcd(f.Value(0), ProductFor(table, p.size)) != 1 ==> outcome != Found
    ensures outcome == Found ==> Vetted(p, t, used)
    ensures outcome == Found && cofactor == 2 ==> Vetted(s, st, sused)
    ensures outcome == Found ==> Val(r[0..r.Length]) == 2 * s.Modulus() % P(r.Length)
  {
    hide Val, P, P2, SmallPrimeProducts, ProductFor, Constructed, Vetted, HasBits, Compared, Gcd;
    p := new MpBarrett((bits + MP_WBITS - 1) / MP_WBITS);
    var width := BitsOfCofactor(bits, q);
    sbits := width;
    var c := new MpBarrett((width + MP_WBITS - 1) / MP_WBITS);
    used, sused, left := [], [], 0;
    BitsBelow(q.Modulus(), bits - width - 1);
    ghost var pm, cm := p.modl, c.modl;
    var step := Retry;
    while step == Retry
      invariant p.modl == pm && WordsFor(p.size, bits) && p.Sized()
      invariant c.modl == cm && WordsFor(c.size, width) && c.Sized()
      invariant step == Accept ==>
                  Constructed(p.Modulus(), c.Modulus(), q.Modulus(), bits, width, cofactor,
                              ProductFor(table, p.size), ProductFor(table, c.size))
      invariant step == Accept ==> Compared(f, left, p.size > |table|, ProductFor(table, p.size))
      invariant step == Accept ==> Vetted(p, t, used)
      invariant step == Accept && cofactor == 2 ==> Vetted(c, st, sused)
      decreases |rng.words|, step == Retry
    {
      step, used, sused, left := TryConOne(p, bits, t, q, c, width, st, cofactor, f, rng, table);
    }
    s := c;
    if step == Accept {
      KeptOnly(f, left, p.size > |table|, ProductFor(table, p.size));
    }
    r := TwiceCofactor(c);
    outcome := if step == Accept then Found else RanOut;
  }

  lemma KeptOnly(f: Optional, left: nat, longer: bool, product: nat)
    requires f.Readable() && Compared(f, left, longer, product) && product > 0
    ensures f.Present? && longer ==> left == product && Gcd(f.Value(0), product) == 1
    ensures f.Present? && left > 0 ==> Gcd(f.Value(0), left) == 1
  {
  }

  lemma CountIsBits(v: nat, n: nat)
    requires v > 0 && v < P2(n) && (n == 0 <==> v == 0) && (n > 0 ==> P2(n - 1) <= v)
    ensures HasBits(v, n)
  {
  }

  method TwiceCofactor(s: MpBarrett) returns (r: array<mpw>)
    requires s.Sized()
    ensures fresh(r) && r.Length == s.size && Val(r[0..r.Length]) == 2 * s.Modulus() % P(r.Length)
  {
    hide Val, P;
    r := new mpw[s.size];
    MpCopy(s.size, r, 0, s.modl, 0);
    ghost var carry := MpMulTwo(s.size, r, 0);
    ValBound(r[0..s.size]);
    DivModUnique(2 * s.Modulus(), P(s.size), carry, Val(r[0..s.size]));
  }

  /** The stored r is 2 s just when the bits of s do not fill its words. */
  lemma StoredCofactor(s: nat, sbits: nat, size: nat)
    requires HasBits(s, sbits) && WordsFor(size, sbits)
    ensures 2 * s % P(size) == 2 * s <==> sbits % MP_WBITS != 0
  {
    hide P2, P;
    PIsP2(size);
    P2Succ(sbits - 1);
    var r := 2 * s % P(size);
    if sbits % MP_WBITS == 0 {
      assert sbits == MP_WBITS * size;
      DivMod(2 * s, P(size));
    } else {
      P2Mono(sbits, MP_WBITS * size);
      DivModUnique(2 * s, P(size), 0, 2 * s);
    }
  }

  /** q divides p - 1. */
  lemma OneModuloQ(p: nat, s: nat, q: nat)
    requires q > 2 && p == 2 * (s * q) + 1
    ensures Rem(p, q) == 1
  {
    hide Rem;
    assert 2 * (s * q) == (2 * s) * q;
    RemPlus(1, q, 2 * s);
    RemSmall(1, q);
  }
}
