/**
  Random primes (mpprime.c). The searches stop early when the source of random words runs
  out. Where the setup of a modulus comes out wrong they go on with an arbitrary verdict.
 */
module PrimeSearch {
  import opened Arith
  import opened NumberTheory
  import opened Words
  import opened MpCompare
  import opened MpAddSub
  import opened MpMultiply
  import opened MpShift
  import opened MpDivide
  import opened MpGcd
  import opened Barrett
  import opened BarrettArith
  import opened RandomNumbers
  import opened MillerRabin

  /** A number that a caller may leave out. */
  datatype Optional = Absent | Present(size: nat, data: array<mpw>)
  {
    predicate Readable() {
      Present? ==> size <= data.Length
    }

    ghost function Value(otherwise: nat): nat
      requires Readable()
      reads if Present? then {data} else {}
    {
      if Present? then Val(data[0..size]) else otherwise
    }
  }

  // ----- bounds as words

  lemma {:induction false} AllOnes(s: seq<mpw>)
    requires forall i :: 0 <= i < |s| ==> s[i] as int == W - 1
    ensures Val(s) == P(|s|) - 1
  {
    if |s| > 0 {
      AllOnes(s[..|s| - 1]);
      PSucc(|s| - 1);
    }
  }

  /** How the bits of a number fill its words. */
  lemma BitsOfWords(size: nat, bits: nat, z: nat)
    requires 0 < size && 0 < bits && bits + z == MP_WBITS * size && z < MP_WBITS
    ensures P2(MP_WBITS - z) * P(size - 1) == P2(bits)
    ensures P2(MP_WBITS - 1 - z) * P(size - 1) == P2(bits - 1)
    ensures P2(bits) <= P(size) && P(size - 1) <= P2(bits - 1)
    ensures P2(bits) == 2 * P2(bits - 1)
  {
    hide P2, P;
    PIsP2(size - 1);
    PIsP2(size);
    P2Add(MP_WBITS - z, MP_WBITS * (size - 1));
    P2Add(MP_WBITS - 1 - z, MP_WBITS * (size - 1));
    P2Mono(bits, MP_WBITS * size);
    P2Mono(MP_WBITS * (size - 1), bits - 1);
    P2Succ(bits - 1);
  }

  /** The largest number of the given bits. */
  method FullBits(size: nat, x: array<mpw>, bits: nat, msbclr: nat)
    requires 0 < size <= x.Length && 0 < bits && bits + msbclr == MP_WBITS * size && msbclr < MP_WBITS
    modifies x
    ensures Val(x[0..size]) == P2(bits) - 1
  {
    hide Val, P, P2, MaskTop;
    var i := 0;
    while i < size
      invariant i <= size
      invariant forall j :: 0 <= j < i ==> x[j] as int == W - 1
    {
      x[i] := W - 1;
      i := i + 1;
    }
    x[0] := MaskTop(x[0], msbclr);
    ghost var s := x[0..size];
    AllOnes(s[1..]);
    ValCons(s);
    MaskedOnes(msbclr);
    BitsOfWords(size, bits, msbclr);
    MulDiff(P2(MP_WBITS - msbclr), 1, P(size - 1));
  }

  lemma MaskedOnes(z: nat)
    requires z < MP_WBITS
    ensures MaskTop(W - 1, z) as int == P2(MP_WBITS - z) - 1
  {
    hide P2;
    var e, f := P2(MP_WBITS - z), P2(z);
    P2Add(MP_WBITS - z, z);
    P2Word();
    assert W - 1 == (f - 1) * e + (e - 1) by {
      MulDiff(f, 1, e);
      assert e * f == f * e;
    }
    DivModUnique(W - 1, e, f - 1, e - 1);
  }

  /** The smallest number of the given bits. */
  method TopBit(size: nat, x: array<mpw>, bits: nat, msbclr: nat)
    requires 0 < size <= x.Length && 0 < bits && bits + msbclr == MP_WBITS * size && msbclr < MP_WBITS
    modifies x
    ensures Val(x[0..size]) == P2(bits - 1)
  {
    hide Val, P, P2, Shr;
    MpZero(size, x, 0);
    ValZero(x[0..size]);
    assert forall i :: 0 <= i < size ==> x[i] == x[0..size][i];
    HalfShifted(msbclr);
    x[0] := Shr(W / 2, msbclr);
    ghost var s := x[0..size];
    ValZero(s[1..]);
    ValCons(s);
    BitsOfWords(size, bits, msbclr);
  }

  lemma HalfShifted(z: nat)
    requires z < MP_WBITS
    ensures Shr(W / 2, z) as int == P2(MP_WBITS - 1 - z)
  {
    hide P2;
    var e, f := P2(MP_WBITS - 1 - z), P2(z);
    P2Add(MP_WBITS - 1 - z, z);
    P2Word();
    DivModUnique(W / 2, f, e, 0);
  }

  ghost function Lower(bits: nat, min: Optional): nat
    requires bits > 0 && min.Readable()
    reads if min.Present? then {min.data} else {}
  {
    min.Value(P2(bits - 1))
  }

  ghost function Upper(bits: nat, max: Optional): nat
    requires max.Readable()
    reads if max.Present? then {max.data} else {}
  {
    max.Value(P2(bits) - 1)
  }

  /** size is the number of words that the bits need. */
  predicate WordsFor(size: nat, bits: nat) {
    0 < bits && bits <= MP_WBITS * size < bits + MP_WBITS
  }

  /** A random number from min to max; setting the least significant bit may pass an even max by one. */
  method MpPRndBits(p: MpBarrett, bits: nat, lsbset: bool, min: Optional, max: Optional, rng: RandomGenerator,
                    high: array<mpw>, low: array<mpw>) returns (ok: bool)
    requires p.Sized() && WordsFor(p.size, bits) && high.Length >= p.size && low.Length >= p.size
    requires high != low && high != p.modl && low != p.modl
    requires min.Readable() && (min.Present? ==> min.data != high && min.data != low && min.data != p.modl)
    requires max.Readable() && (max.Present? ==> max.data != high && max.data != low && max.data != p.modl)
    requires Lower(bits, min) < Upper(bits, max) < P2(bits)
    modifies rng, p.modl, high, low
    ensures ok ==> p.size <= old(|rng.words|) && rng.words == old(rng.words[p.size..])
    ensures ok ==> p.Modulus() == Candidate(old(rng.words[..p.size]), bits, Lower(bits, min), Upper(bits, max), lsbset)
    ensures ok ==> Lower(bits, min) <= p.Modulus()
    ensures ok ==> if lsbset then p.Modulus() % 2 == 1 && p.Modulus() <= Upper(bits, max) + (1 - Upper(bits, max) % 2)
                   else p.Modulus() <= Upper(bits, max)
    ensures if ok then |rng.words| < old(|rng.words|) else rng.words == old(rng.words)
  {
    hide Val, P, P2, Rem, Candidate, Within, WithLsb, Lower, Upper;
    var size := p.size;
    ghost var lo: int, hi: int := Lower(bits, min), Upper(bits, max);
    var msbclr := MP_WBITS * size - bits;
    BitsOfWords(size, bits, msbclr);
    LoadRange(size, bits, msbclr, min, max, high, low);
    ok := rng.Next(size, p.modl);
    if ok {
      ghost var draw := p.modl[0..size];
      assert draw == old(rng.words[..size]);
      FitDraw(size, p.modl, bits, msbclr, high, low, lo, hi, lsbset);
      assert lo == Lower(bits, min) && hi == Upper(bits, max);
    }
  }

  /** Masks a draw, moves it into the range and sets its least significant bit if asked to. */
  method FitDraw(size: nat, x: array<mpw>, ghost bits: nat, msbclr: nat, range: array<mpw>, low: array<mpw>,
                 ghost lo: int, ghost hi: int, lsbset: bool)
    requires 0 < size <= x.Length && size <= range.Length && size <= low.Length && x != range && x != low
    requires Val(low[0..size]) == lo < hi < P(size) && Val(range[0..size]) == hi - lo
    requires WordsFor(size, bits) && msbclr == MP_WBITS * size - bits
    modifies x
    ensures Val(x[0..size]) == Candidate(old(x[0..size]), bits, lo, hi, lsbset)
    ensures var v := lo + Within(Rem(Val(old(x[0..size])), P2(bits)), hi - lo);
            Val(x[0..size]) == if lsbset then WithLsb(v) else v
    ensures lo <= Val(x[0..size])
    ensures if lsbset then Val(x[0..size]) % 2 == 1 && Val(x[0..size]) <= hi + (1 - hi % 2) else Val(x[0..size]) <= hi
  {
    hide Val, P, P2, Within, Rem;
    ghost var draw := x[0..size];
    CandidateIs(draw, bits, lo, hi, lsbset);
    x[0] := MaskTop(x[0], msbclr);
    assert x[0..size] == [MaskTop(draw[0], msbclr)] + draw[1..];
    assert Val(x[0..size]) == Masked(draw, msbclr);
    MoveIntoRange(size, x, range, low, lo, hi);
    Rounded(Val(x[0..size]), hi);
    if lsbset {
      MpSetLsb(size, x, 0);
    }
  }

  method MoveIntoRange(size: nat, x: array<mpw>, range: array<mpw>, low: array<mpw>, ghost lo: int, ghost hi: int)
    requires size <= x.Length && size <= range.Length && size <= low.Length && x != range && x != low
    requires Val(low[0..size]) == lo < hi < P(size) && Val(range[0..size]) == hi - lo
    modifies x
    ensures Val(x[0..size]) == lo + Within(old(Val(x[0..size])), hi - lo)
    ensures lo <= Val(x[0..size]) <= hi
  {
    hide Val, P;
    ReduceWithin(size, x, range);
    ghost var v: int := Val(x[0..size]);
    ghost var carry := MpAdd(size, x, 0, low, 0);
    NoCarryOut(x[0..size], v + lo, carry);
  }

  lemma Rounded(v: int, hi: int)
    requires v <= hi
    ensures WithLsb(v) <= WithLsb(hi)
    ensures WithLsb(v) % 2 == 1
  {
  }

  /** Setting the least significant bit takes the candidate of some draw out of the range just when max is even. */
  lemma MaxMayBePassed(size: nat, bits: nat, lo: nat, hi: nat)
    requires WordsFor(size, bits) && lo < hi < P2(bits)
    ensures (exists draw: seq<mpw> :: |draw| == size && Candidate(draw, bits, lo, hi, true) > hi) <==> hi % 2 == 0
  {
    hide P2, P, Val, Masked, Within;
    var z := MP_WBITS * size - bits;
    if hi % 2 == 0 {
      BitsOfWords(size, bits, z);
      var draw := ToWords(hi - lo, size);
      MaskedSmall(draw, bits, z);
      WithinSelf(hi - lo, hi - lo);
      assert Candidate(draw, bits, lo, hi, true) > hi;
    } else {
      forall draw: seq<mpw> | |draw| == size
        ensures Candidate(draw, bits, lo, hi, true) <= hi
      {
        var d := Masked(draw, z);
        WithinBound(d, hi - lo);
        Rounded(lo + Within(d, hi - lo), hi);
      }
    }
  }

  lemma WithinBound(d: int, k: int)
    requires k > 0
    ensures Within(d, k) <= k
  {
    DivMod(d - 1, k);
  }

  /** The mask leaves a number of the given bits as it is. */
  lemma MaskedSmall(draw: seq<mpw>, bits: nat, z: nat)
    requires 0 < |draw| && 0 < bits && bits + z == MP_WBITS * |draw| && z < MP_WBITS && Val(draw) < P2(bits)
    ensures Masked(draw, z) == Val(draw)
  {
    hide P2, P, Val, MaskTop;
    LeadingFits(draw, bits, z);
    UnmaskedWord(draw[0], z);
    assert [draw[0]] + draw[1..] == draw;
  }

  lemma LeadingFits(s: seq<mpw>, bits: nat, z: nat)
    requires 0 < |s| && 0 < bits && bits + z == MP_WBITS * |s| && z < MP_WBITS && Val(s) < P2(bits)
    ensures s[0] as int < P2(MP_WBITS - z)
  {
    hide P2, P, Val;
    var n := |s|;
    BitsOfWords(n, bits, z);
    ValCons(s);
    FactorBelow(s[0], P2(MP_WBITS - z), P(n - 1), Val(s[1..]));
  }

  lemma FactorBelow(w: int, e: int, p: int, rest: int)
    requires 0 < p && 0 <= rest && w * p + rest < e * p
    ensures w < e
  {
    if w >= e {
      MulMono(e, w, p);
    }
  }

  lemma UnmaskedWord(w: mpw, z: nat)
    requires z <= MP_WBITS && w as int < P2(MP_WBITS - z)
    ensures MaskTop(w, z) == w
  {
    hide P2;
    DivModUnique(w, P2(MP_WBITS - z), 0, w);
  }

  /** The width of the range, and its lower end. */
  method LoadRange(size: nat, bits: nat, msbclr: nat, min: Optional, max: Optional, high: array<mpw>, low: array<mpw>)
    requires 0 < size <= high.Length && size <= low.Length && high != low
    requires 0 < bits && bits + msbclr == MP_WBITS * size && msbclr < MP_WBITS
    requires min.Readable() && (min.Present? ==> min.data != high && min.data != low)
    requires max.Readable() && (max.Present? ==> max.data != high && max.data != low)
    requires Lower(bits, min) < Upper(bits, max) < P(size)
    modifies high, low
    ensures Val(high[0..size]) == Upper(bits, max) - Lower(bits, min) && Val(low[0..size]) == Lower(bits, min)
  {
    hide Val, P, P2;
    if max.Present? {
      ResizedIsMod(size, max.data[0..max.size]);
      MpSetx(size, high, 0, max.size, max.data, 0);
    } else {
      FullBits(size, high, bits, msbclr);
    }
    ghost var h := high[0..size];
    if min.Present? {
      ResizedIsMod(size, min.data[0..min.size]);
      MpSetx(size, low, 0, min.size, min.data, 0);
    } else {
      TopBit(size, low, bits, msbclr);
    }
    assert high[0..size] == h;
    ghost var width: int := Val(h) - Val(low[0..size]);
    ghost var borrow := MpSub(size, high, 0, low, 0);
    NoBorrowAtAll(high[0..size], width, borrow);
  }

  /** Subtracts y until x is not above it. */
  method ReduceWithin(size: nat, x: array<mpw>, y: array<mpw>)
    requires size <= x.Length && size <= y.Length && x != y && Val(y[0..size]) > 0
    modifies x
    ensures Val(x[0..size]) == Within(old(Val(x[0..size])), Val(y[0..size])) <= Val(y[0..size])
    ensures Framed(x, 0, size)
  {
    hide Val, P, Within;
    ghost var k: int, d: int := Val(y[0..size]), Val(x[0..size]);
    var gt := MpGt(size, x, 0, y, 0);
    while gt
      invariant gt <==> Val(x[0..size]) > k
      invariant Within(Val(x[0..size]), k) == Within(d, k)
      invariant Framed(x, 0, size)
      decreases Val(x[0..size])
    {
      ghost var v: int := Val(x[0..size]);
      WithinStep(v, k);
      ghost var borrow := MpSub(size, x, 0, y, 0);
      NoBorrowAtAll(x[0..size], v - k, borrow);
      gt := MpGt(size, x, 0, y, 0);
    }
    WithinSelf(Val(x[0..size]), k);
  }

  /** The number from 0 to k that d is brought down to: zero only for a zero. */
  function Within(d: int, k: int): int
    requires k > 0
  {
    if d <= k then d else (d - 1) % k + 1
  }

  /** Bringing a number down keeps it modulo k and ends at zero only for a zero. */
  lemma WithinIs(d: nat, k: int)
    requires k > 0
    ensures 0 <= Within(d, k) <= k && (d - Within(d, k)) % k == 0 && (Within(d, k) == 0 <==> d == 0)
  {
    if d > k {
      DivMod(d - 1, k);
      DivModUnique(d - Within(d, k), k, (d - 1) / k, 0);
    }
  }

  lemma WithinSelf(d: int, k: int)
    requires k > 0 && d <= k
    ensures Within(d, k) == d
  {
  }

  lemma WithinStep(d: int, k: int)
    requires k > 0 && d > k
    ensures Within(d, k) == Within(d - k, k)
  {
    DivMod(d - 1, k);
    var q := (d - 1) / k;
    MulDiff(q, 1, k);
    DivModUnique(d - 1 - k, k, q - 1, (d - 1) % k);
    if d - k <= k {
      DivModUnique(d - 1 - k, k, 0, d - 1 - k);
    }
  }

  /** What a draw becomes. */
  ghost function Candidate(draw: seq<mpw>, bits: nat, lo: int, hi: int, lsbset: bool): int
    requires |draw| > 0 && WordsFor(|draw|, bits) && lo < hi
  {
    var v := lo + Within(Masked(draw, MP_WBITS * |draw| - bits), hi - lo);
    if lsbset then WithLsb(v) else v
  }

  /** The bits of the draw that are asked for, brought from 0 to the width of the range, above its lower end. */
  lemma CandidateIs(draw: seq<mpw>, bits: nat, lo: int, hi: int, lsbset: bool)
    requires |draw| > 0 && WordsFor(|draw|, bits) && lo < hi
    ensures var v := lo + Within(Rem(Val(draw), P2(bits)), hi - lo);
            Candidate(draw, bits, lo, hi, lsbset) == if lsbset then WithLsb(v) else v
  {
    hide Val, P2, Masked, Within, WithLsb;
    MaskedDraw(draw, MP_WBITS * |draw| - bits);
  }

  // ----- testing a candidate

  /** Whether mu is what it should be, which the library does not ask. */
  method SetupIsExact(b: MpBarrett) returns (exact: bool)
    requires b.Usable()
    ensures exact <==> b.Valid()
  {
    hide Val, P;
    var k := b.size;
    ghost var m: int, mu: int := b.Modulus(), b.Mu();
    PMono(0, k - 1);
    PSucc(0);
    var product := new mpw[2 * k + 1];
    MpMul(product, 0, k + 1, b.modl, k, k, b.modl, 0);
    assert k + 1 + k == 2 * k + 1;
    var above := AbovePower(2 * k, product);
    if above {
      exact := false;
    } else {
      ghost var M := b.modl[0..k];
      ShortFits(M, 2 * k + 1);
      ResizedIsMod(2 * k + 1, M);
      DoubleFits(k);
      ShortFits(M, k);
      PSucc(2 * k);
      ghost var carry := MpAddx(2 * k + 1, product, 0, k, b.modl, 0);
      NoCarryOut(product[0..2 * k + 1], mu * m + m, carry);
      exact := AbovePower(2 * k, product);
    }
    FloorQuotient(P(2 * k), m, mu);
  }

  /** A number of n + 1 words is above the power that its leading word counts. */
  method AbovePower(n: nat, x: array<mpw>) returns (above: bool)
    requires x.Length == n + 1
    ensures above <==> Val(x[0..n + 1]) > P(n)
  {
    hide Val, P;
    ghost var s := x[0..n + 1];
    ValCons(s);
    assert s[1..] == x[1..1 + n];
    ValBound(s[1..]);
    if x[0] > 1 {
      MulMono(2, x[0], P(n));
      above := true;
    } else if x[0] == 1 {
      above := MpNz(n, x, 1);
    } else {
      above := false;
    }
  }

  lemma FloorQuotient(n: int, m: int, q: int)
    requires 0 < m
    ensures q == n / m <==> q * m <= n < q * m + m
  {
    DivMod(n, m);
    if q * m <= n < q * m + m {
      DivModUnique(n, m, q, n - q * m);
    }
  }

  /** The Miller-Rabin test with its own workspace; with a wrong mu, any verdict after any number of words. */
  method IsProbablePrime(b: MpBarrett, rng: RandomGenerator, t: int) returns (verdict: Verdict)
    requires b.Usable()
    modifies rng
    ensures |rng.words| <= old(|rng.words|)
    ensures b.Valid() ==> DrawSize(b.size, b.Modulus()) && verdict == Judged(b.Modulus(), b.size, old(rng.words), t)
  {
    hide Val, P, Judged, DrawSize;
    var exact := SetupIsExact(b);
    if exact {
      var n := b.size;
      var ndata, rdata, adata := new mpw[n], new mpw[n + 1], new mpw[n];
      var y, wksp, temp := new mpw[n], new mpw[2 * n + 2], new mpw[2 * n];
      ghost var bases;
      verdict, bases := MpPMilRab(b, rng, t, ndata, rdata, adata, y, wksp, temp);
    } else {
      verdict := *;
      var drawn: int := *;
      if 0 <= drawn <= |rng.words| {
        rng.words := rng.words[drawn..];
      }
    }
  }

  /** n has passed Miller-Rabin with the words that the random source then delivered. */
  ghost predicate Passed(n: nat, size: nat, t: int, words: seq<mpw>) {
    DrawSize(size, n) && Judged(n, size, words, t) == ProbablePrime
  }

  /** Trial division with its own workspace, of which full holds the product for a number longer than the table. */
  method NoSmallFactor(b: MpBarrett, table: seq<array<mpw>>, full: array<mpw>) returns (ok: bool)
    requires b.Sized() && b.Modulus() > 0 && SmallPrimeProducts(table) && full.Length >= b.size && full != b.modl
    requires forall i :: 0 <= i < |table| ==> table[i] != full
    modifies full
    ensures ok <==> Gcd(b.Modulus(), ProductFor(table, b.size)) == 1
    ensures b.size > |table| ==> Val(full[0..b.size]) == ProductFor(table, b.size)
  {
    hide Val, P, Gcd;
    var n := b.size;
    var result, wksp := new mpw[n], new mpw[n];
    ok := MpPSpPDiv(b, table, result, full, wksp);
  }

  /** Whether the modulus less one is coprime to f. */
  method PredecessorCoprime(b: MpBarrett, f: Optional) returns (ok: bool)
    requires b.Sized() && b.Modulus() > 1 && f.Readable()
    requires f.Present? ==> f.size <= b.size && f.Value(0) > 0
    ensures ok <==> f.Present? ==> Gcd(b.Modulus() - 1, f.Value(0)) == 1
  {
    hide Val, P, Gcd;
    ok := true;
    if f.Present? {
      var n := b.size;
      ghost var m: nat, v: nat := b.Modulus() - 1, f.Value(0);
      var x, y := new mpw[n], new mpw[n];
      MpCopy(n, x, 0, b.modl, 0);
      ghost var borrow := MpSubw(n, x, 0, 1);
      NoBorrowAtAll(x[0..n], m, borrow);
      ghost var F := f.data[0..f.size];
      MpSetx(n, y, 0, f.size, f.data, 0);
      ShortFits(F, n);
      ResizedIsMod(n, F);
      ok := Coprime(n, x, y);
    }
  }

  // ----- candidates above the upper end that survive

  /** One more than an even upper end, when it is a prime that trial division lets pass, is the candidate of
      some draw, and Miller-Rabin does not reject it, whatever words it draws. */
  lemma MaxPlusOneSurvives(size: nat, bits: nat, lo: nat, hi: nat, words: seq<mpw>, t: int)
      returns (draw: seq<mpw>)
    requires WordsFor(size, bits) && lo < hi < P2(bits) && hi % 2 == 0 && hi > 1
    requires IsPrime(hi + 1) && DrawSize(size, hi + 1)
    ensures |draw| == size && Candidate(draw, bits, lo, hi, true) == hi + 1
    ensures Judged(hi + 1, size, words, t) != Composite
  {
    hide P2, P, Val, Masked, Within, IsPrime, DrawSize, Judged;
    var z := MP_WBITS * size - bits;
    BitsOfWords(size, bits, z);
    draw := ToWords(hi - lo, size);
    MaskedSmall(draw, bits, z);
    WithinSelf(hi - lo, hi - lo);
    PrimesPass(hi + 1, size, words, t);
  }

  /** Six bits, from 32 to 58: the draw 26 gives the prime 59, which the product of the primes from 3 to 53 lets
      pass and for which the setup is right. */
  lemma FiftyNineSurvives(words: seq<mpw>, t: int)
    ensures P2(6) == 64 && Candidate([26], 6, 32, 58, true) == 59
    ensures IsPrime(59) && Gcd(59, 0xe221f97c30e94e1d) == 1 && MuExact([59])
    ensures DrawSize(1, 59) && Judged(59, 1, words, t) != Composite
  {
    hide Judged, Within, Masked, MuExact;
    P2Succ(5);
    P2Succ(4);
    P2Succ(3);
    P2Succ(2);
    P2Succ(1);
    ValOne([26]);
    MaskedSmall([26], 6, 58);
    WithinSelf(26, 26);
    SingleWordExact([59]);
    assert Gcd(59, 0xe221f97c30e94e1d) == Gcd(0xe221f97c30e94e1d, 59) == Gcd(59, 37) == Gcd(37, 22);
    assert Gcd(37, 22) == Gcd(22, 15) == Gcd(15, 7) == Gcd(7, 1) == Gcd(1, 0);
    LengthOf59();
    PrimesPass(59, 1, words, t);
  }

  lemma LengthOf59()
    ensures DrawSize(1, 59)
  {
    assert BitLength(59) == 1 + BitLength(29) && BitLength(29) == 1 + BitLength(14);
    assert BitLength(14) == 1 + BitLength(7) && BitLength(7) == 1 + BitLength(3);
    assert BitLength(3) == 1 + BitLength(1) && BitLength(1) == 1;
  }

  // ----- a random prime in a range

  /** How a round of a search ends, and how a search does. */
  datatype Step = Accept | Retry | Exhausted
  datatype Outcome = Found | Refused | RanOut

  /** A modulus that has been set up, rightly just when MuExact says so, and has then passed Miller-Rabin. */
  ghost predicate Vetted(p: MpBarrett, t: int, words: seq<mpw>)
    reads p, p.modl
  {
    && p.Usable()
    && (p.Valid() <==> MuExact(p.modl[0..p.size]))
    && (p.Valid() ==> Passed(p.Modulus(), p.size, t, words))
  }

  /** What a vetted number is: mu has been set up rightly just when the division met no equal words, and then the
      number is a strong probable prime to the base two and to as many bases that were drawn as were asked for. */
  lemma VettedMeans(p: MpBarrett, t: int, words: seq<mpw>) returns (bases: seq<nat>)
    requires Vetted(p, t, words)
    ensures p.Modulus() > 1
    ensures MuExact(p.modl[0..p.size]) <==> p.Mu() == P(2 * p.size) / p.Modulus()
    ensures MuExact(p.modl[0..p.size]) ==>
              && StrongProbablePrime(p.Modulus(), 2)
              && |bases| == (if t > 0 then t else if t == 0 then 1 else 0)
              && forall i :: 0 <= i < |bases| ==>
                   1 < bases[i] < p.Modulus() - 1 && StrongProbablePrime(p.Modulus(), bases[i])
  {
    hide Val, P, MuExact, StrongProbablePrime, DrawSize, Verdicts;
    PMono(0, p.size - 1);
    PSucc(0);
    bases := [];
    if MuExact(p.modl[0..p.size]) {
      bases := BasesPassed(p.Modulus(), p.size, words, Rounds(t));
    }
  }

  /** Barrett setup and Miller-Rabin for a candidate. */
  method TestCandidate(p: MpBarrett, t: int, rng: RandomGenerator) returns (step: Step)
    requires p.Usable()
    modifies rng, p.modl
    ensures p.Usable() && p.modl[0..p.size] == old(p.modl[0..p.size]) && |rng.words| <= old(|rng.words|)
    ensures step == Accept ==> Vetted(p, t, old(rng.words))
    ensures step == Retry && MuExact(old(p.modl[0..p.size])) ==> !IsPrime(p.Modulus()) || p.Modulus() <= 2
  {
    hide Val, P, IsPrime, MuExact, DrawSize, Judged;
    var k := p.size;
    ghost var before, words := p.modl[0..k], rng.words;
    var divmod, dividend, workspace := new mpw[2 * k + 2], new mpw[2 * k + 1], new mpw[k + 1];
    MpBMu(p, divmod, dividend, workspace);
    ValInjective(before, p.modl[0..k]);
    var verdict := IsProbablePrime(p, rng, t);
    if p.Valid() && IsPrime(p.Modulus()) && p.Modulus() > 2 {
      PrimesPass(p.Modulus(), p.size, words, t);
    }
    match verdict
    case ProbablePrime => step := Accept;
    case Composite => step := Retry;
    case NoMoreRandomness => step := Exhausted;
  }

  /** The range that a search asks for. */
  ghost predicate InRange(n: nat, bits: nat, min: Optional, max: Optional)
    requires bits > 0 && min.Readable() && max.Readable()
    reads if min.Present? then {min.data} else {}
    reads if max.Present? then {max.data} else {}
  {
    Lower(bits, min) <= n <= Upper(bits, max) + (1 - Upper(bits, max) % 2)
  }

  method TryCandidate(p: MpBarrett, bits: nat, t: int, min: Optional, max: Optional, f: Optional, rng: RandomGenerator,
                      table: seq<array<mpw>>) returns (step: Step, ghost used: seq<mpw>)
    requires p.Sized() && p.size < W && WordsFor(p.size, bits) && bits > 1 && SmallPrimeProducts(table)
    requires min.Readable() && max.Readable() && f.Readable()
    requires (min.Present? ==> min.data != p.modl) && (max.Present? ==> max.data != p.modl)
    requires f.Present? ==> f.data != p.modl && f.size <= p.size && f.Value(0) > 0
    requires forall i :: 0 <= i < |table| ==> table[i] != p.modl
    requires Lower(bits, min) < Upper(bits, max) < P2(bits) && (min.Present? ==> Lower(bits, min) > P(p.size - 1))
    modifies rng, p.modl
    ensures |rng.words| <= old(|rng.words|)
    ensures step == Accept || step == Retry ==> |rng.words| < old(|rng.words|)
    ensures step == Accept ==> p.Modulus() % 2 == 1 && InRange(p.Modulus(), bits, min, max)
    ensures step == Accept ==> Gcd(p.Modulus(), ProductFor(table, p.size)) == 1 && Vetted(p, t, used)
    ensures step == Accept && f.Present? ==> Gcd(p.Modulus() - 1, f.Value(0)) == 1
  {
    hide Val, P, P2, Vetted, IsPrime, MuExact, Gcd, InRange, Lower, Upper, SmallPrimeProducts, ProductFor;
    var ok := DrawCandidate(p, bits, min, max, rng);
    used := rng.words;
    if !ok {
      return Exhausted, used;
    }
    var full := new mpw[p.size];
    ok := NoSmallFactor(p, table, full);
    if ok {
      ok := PredecessorCoprime(p, f);
    }
    if !ok {
      return Retry, used;
    }
    step := TestCandidate(p, t, rng);
  }

  /** An odd number of the range, drawn with a workspace of its own. */
  method DrawCandidate(p: MpBarrett, bits: nat, min: Optional, max: Optional, rng: RandomGenerator) returns (ok: bool)
    requires p.Sized() && p.size < W && WordsFor(p.size, bits) && bits > 1 && min.Readable() && max.Readable()
    requires (min.Present? ==> min.data != p.modl) && (max.Present? ==> max.data != p.modl)
    requires Lower(bits, min) < Upper(bits, max) < P2(bits) && (min.Present? ==> Lower(bits, min) > P(p.size - 1))
    modifies rng, p.modl
    ensures ok ==> p.Usable() && p.Modulus() > 1 && p.Modulus() % 2 == 1 && InRange(p.Modulus(), bits, min, max)
    ensures if ok then |rng.words| < old(|rng.words|) else rng.words == old(rng.words)
  {
    hide Val, P, P2, Candidate;
    var high, low := new mpw[p.size], new mpw[p.size];
    ok := MpPRndBits(p, bits, true, min, max, rng, high, low);
    if ok {
      CandidateUsable(p.size, bits, Lower(bits, min), min.Present?, p.Modulus());
    }
  }

  lemma CandidateUsable(size: nat, bits: nat, lower: nat, given: bool, n: nat)
    requires WordsFor(size, bits) && bits > 1 && lower <= n && n % 2 == 1
    requires if given then lower > P(size - 1) else lower == P2(bits - 1)
    ensures P(size - 1) < n && n > 1
  {
    hide P, P2;
    BitsOfWords(size, bits, MP_WBITS * size - bits);
    P2Succ(bits - 2);
    PMono(0, size - 1);
    PSucc(0);
  }

  /** The number of bits tells on which side of a power of two a number is. */
  lemma BitCount(v: nat, n: nat, k: nat)
    requires v < P2(n) && (n == 0 <==> v == 0) && (n > 0 ==> P2(n - 1) <= v)
    ensures n > k <==> v >= P2(k)
    ensures k > 0 ==> (n == k <==> P2(k - 1) <= v < P2(k))
  {
    hide P2;
    if n <= k {
      P2Mono(n, k);
    } else {
      P2Mono(k, n - 1);
    }
    if k > 0 {
      if n < k {
        P2Mono(n, k - 1);
      }
    }
  }

  method BitsOf(x: Optional) returns (bits: nat)
    requires x.Present? && x.Readable()
    ensures forall k: nat :: bits > k <==> x.Value(0) >= P2(k)
    ensures forall k: nat :: bits == k + 1 <==> P2(k) <= x.Value(0) < P2(k + 1)
  {
    hide Val, P2;
    bits := MpBits(x.size, x.data, 0);
    forall k: nat
      ensures bits > k <==> x.Value(0) >= P2(k)
      ensures bits == k + 1 <==> P2(k) <= x.Value(0) < P2(k + 1)
    {
      BitCount(x.Value(0), bits, k);
      BitCount(x.Value(0), bits, k + 1);
    }
  }

  ghost predicate BadBounds(bits: nat, min: Optional, max: Optional)
    requires bits > 0 && min.Readable() && max.Readable()
    reads if min.Present? then {min.data} else {}
    reads if max.Present? then {max.data} else {}
  {
    || (min.Present? && min.Value(0) >= P2(bits))
    || (max.Present? && !(P2(bits - 1) <= max.Value(0) < P2(bits)))
    || (min.Present? && max.Present? && min.Value(0) >= max.Value(0))
  }

  /** The bounds that are not refused, by their numbers of bits. */
  lemma GoodBounds(bits: nat, min: Optional, max: Optional)
    requires bits > 0 && min.Readable() && max.Readable()
    ensures !BadBounds(bits, min, max) <==>
            && (min.Present? ==> BitLength(min.Value(0)) <= bits)
            && (max.Present? ==> BitLength(max.Value(0)) == bits)
            && (min.Present? && max.Present? ==> min.Value(0) < max.Value(0))
  {
    hide Val, P2, BitLength;
    BitLengthAtMost(min.Value(0), bits);
    BitLengthAtMost(max.Value(0), bits);
    BitLengthAtMost(max.Value(0), bits - 1);
  }

  method CheckBounds(bits: nat, min: Optional, max: Optional) returns (bad: bool)
    requires bits > 0 && min.Readable() && max.Readable()
    ensures bad <==> BadBounds(bits, min, max)
  {
    hide Val, P2;
    if min.Present? {
      var n := BitsOf(min);
      if n > bits {
        return true;
      }
    }
    if max.Present? {
      var n := BitsOf(max);
      ghost var k: nat := bits - 1;
      assert n == k + 1 <==> P2(k) <= max.Value(0) < P2(k + 1);
      if n != bits {
        return true;
      }
    }
    if min.Present? && max.Present? {
      bad := MpGex(min.size, min.data, 0, max.size, max.data, 0);
    } else {
      bad := false;
    }
  }

  /** A random probable prime of the given bits, from min to max, with p - 1 coprime to f. */
  method MpPRndR(bits: nat, t: int, min: Optional, max: Optional, f: Optional, rng: RandomGenerator,
                 table: seq<array<mpw>>)
      returns (outcome: Outcome, p: MpBarrett, ghost used: seq<mpw>)
    requires 1 < bits < W && SmallPrimeProducts(table)
    requires min.Readable() && max.Readable() && f.Readable()
    requires f.Present? ==> MP_WBITS * f.size < bits + MP_WBITS && f.Value(0) > 0
    requires min.Present? ==> forall size: nat :: WordsFor(size, bits) ==> min.Value(0) > P(size - 1)
    requires !BadBounds(bits, min, max) ==> Lower(bits, min) < Upper(bits, max)
    modifies rng
    ensures fresh(p) && fresh(p.modl) && p.Sized() && WordsFor(p.size, bits)
    ensures outcome == Refused <==> BadBounds(bits, min, max)
    ensures outcome == Found ==> p.Modulus() % 2 == 1 && InRange(p.Modulus(), bits, min, max)
    ensures outcome == Found ==> if min.Present? then min.Value(0) <= p.Modulus() else P2(bits - 1) <= p.Modulus()
    ensures outcome == Found ==>
              if max.Present? then p.Modulus() <= WithLsb(max.Value(0)) else p.Modulus() < P2(bits)
    ensures outcome == Found ==> Gcd(p.Modulus(), ProductFor(table, p.size)) == 1 && Vetted(p, t, used)
    ensures outcome == Found && f.Present? ==> Gcd(p.Modulus() - 1, f.Value(0)) == 1
    ensures outcome == Found && p.Modulus() > Upper(bits, max) ==>
              && Upper(bits, max) % 2 == 0 && p.Modulus() == Upper(bits, max) + 1
              && Gcd(Upper(bits, max) + 1, ProductFor(table, p.size)) == 1
  {
    hide Val, P, P2, Gcd, Vetted, InRange, Upper, Lower, BadBounds, SmallPrimeProducts, ProductFor, WithLsb;
    var size := (bits + MP_WBITS - 1) / MP_WBITS;
    p := new MpBarrett(size);
    used := [];
    var bad := CheckBounds(bits, min, max);
    if bad {
      return Refused, p, used;
    }
    UpperBelow(bits, min, max);
    ghost var modl := p.modl;
    var step := Retry;
    while step == Retry
      invariant p.modl == modl && p.size == size && p.Sized()
      invariant step == Accept ==> p.Modulus() % 2 == 1 && InRange(p.Modulus(), bits, min, max)
      invariant step == Accept ==> Gcd(p.Modulus(), ProductFor(table, p.size)) == 1 && Vetted(p, t, used)
      invariant step == Accept && f.Present? ==> Gcd(p.Modulus() - 1, f.Value(0)) == 1
      decreases |rng.words|, step == Retry
    {
      step, used := TryCandidate(p, bits, t, min, max, f, rng, table);
    }
    outcome := if step == Accept then Found else RanOut;
    if step == Accept {
      AboveUpper(p.Modulus(), bits, min, max);
      InRangeMeans(p.Modulus(), bits, min, max);
    }
  }

  lemma InRangeMeans(n: nat, bits: nat, min: Optional, max: Optional)
    requires bits > 0 && min.Readable() && max.Readable() && InRange(n, bits, min, max)
    ensures if min.Present? then min.Value(0) <= n else P2(bits - 1) <= n
    ensures if max.Present? then n <= WithLsb(max.Value(0)) else n < P2(bits)
  {
    hide Val, P2;
    P2Succ(bits - 1);
  }

  lemma AboveUpper(n: nat, bits: nat, min: Optional, max: Optional)
    requires bits > 0 && min.Readable() && max.Readable() && InRange(n, bits, min, max)
    ensures n > Upper(bits, max) ==> Upper(bits, max) % 2 == 0 && n == Upper(bits, max) + 1
  {
  }

  lemma UpperBelow(bits: nat, min: Optional, max: Optional)
    requires bits > 0 && min.Readable() && max.Readable() && !BadBounds(bits, min, max)
    ensures Upper(bits, max) < P2(bits)
    ensures min.Present? ==> Lower(bits, min) == min.Value(0)
  {
  }
}
