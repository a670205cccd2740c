/** Primality tests (mpprime.c): trial division by a product of small primes, and Miller-Rabin. */
module MillerRabin {
  import opened Arith
  import opened NumberTheory
  import opened Words
  import opened MpCompare
  import opened MpAddSub
  import opened MpShift
  import opened MpGcd
  import opened Barrett
  import opened BarrettArith
  import opened Power
  import opened RandomNumbers

  // ----- strong probable primes

  /** The exponent r doubled j times. */
  function Doubled(r: nat, j: nat): nat {
    if j == 0 then r else 2 * Doubled(r, j - 1)
  }

  /** The power a^(r 2^j) is -1 modulo n. */
  ghost predicate MinusOneAt(n: nat, a: nat, r: nat, j: nat)
    requires n > 0
  {
    IsPower(n - 1, a, Doubled(r, j), n)
  }

  ghost predicate StrongTo(n: nat, a: nat, s: nat, r: nat)
    requires n > 0
  {
    IsPower(1, a, r, n) || exists j: nat :: (j == 0 || j < s) && MinusOneAt(n, a, r, j)
  }

  /** n is a strong probable prime to the base a. */
  ghost predicate StrongProbablePrime(n: nat, a: nat)
    requires n > 1
  {
    StrongTo(n, a, TwoAdic(n - 1), OddPart(n - 1))
  }

  lemma OneSquared(n: nat, a: nat, e: nat)
    requires n > 1 && IsPower(1, a, e, n)
    ensures IsPower(1, a, 2 * e, n)
  {
    hide Rem;
    SquarePower(1, a, e, n);
    RemSmall(1, n);
  }

  lemma {:induction false} OnceOne(n: nat, a: nat, r: nat, j: nat, k: nat)
    requires n > 1 && j <= k && IsPower(1, a, Doubled(r, j), n)
    ensures IsPower(1, a, Doubled(r, k), n)
    decreases k
  {
    hide IsPower;
    if j < k {
      OnceOne(n, a, r, j, k - 1);
      OneSquared(n, a, Doubled(r, k - 1));
    }
  }

  /** Going back from a power that is one, a prime leads to -1 or to the odd power. */
  lemma {:induction false} Descend(p: nat, a: nat, r: nat, j: nat)
    requires IsPrime(p) && IsPower(1, a, Doubled(r, j), p)
    ensures IsPower(1, a, r, p) || exists i: nat :: i < j && MinusOneAt(p, a, r, i)
  {
    hide Rem, Pow, IsPrime;
    PrimeAboveOne(p);
    if j > 0 {
      var e := Doubled(r, j - 1);
      var y := Rem(Pow(a, e), p);
      RemBounds(Pow(a, e), p);
      SquarePower(y, a, e, p);
      RootsOfOne(p, y);
      if y == 1 {
        Descend(p, a, r, j - 1);
      } else {
        assert MinusOneAt(p, a, r, j - 1);
      }
    }
  }

  /** An odd prime is a strong probable prime to every base it does not divide. */
  lemma PrimeIsStrong(p: nat, a: nat)
    requires IsPrime(p) && p > 2 && !Divides(p, a)
    ensures StrongProbablePrime(p, a)
  {
    hide IsPower, IsPrime, Divides;
    FermatInverse(p, a);
    var s, r := TwoAdic(p - 1), OddPart(p - 1);
    Recombined(p - 1);
    FermatPower(p, a);
    Descend(p, a, r, s);
  }

  lemma FermatPower(p: nat, a: nat)
    requires p > 1 && Rem(Pow(a, p - 1), p) == 1
    ensures IsPower(1, a, p - 1, p)
  {
  }

  lemma {:induction false} Recombined(n: nat)
    requires n > 0
    ensures Doubled(OddPart(n), TwoAdic(n)) == n
  {
    if n % 2 == 0 {
      Recombined(n / 2);
    }
  }

  // ----- the tests

  /** Repeated squaring of y, shared by the tests to the bases two and a. */
  method SquareUntil(b: MpBarrett, s: nat, ndata: array<mpw>, y: array<mpw>, wksp: array<mpw>, temp: array<mpw>,
                     ghost a: nat, ghost r: nat) returns (ok: bool)
    requires b.Valid() && Workspace(b, wksp, temp, y) && y.Length >= b.size && ndata.Length >= b.size
    requires ndata != y && ndata != wksp && ndata != temp
    requires Val(ndata[0..b.size]) == b.Modulus() - 1 && (b.Modulus() == 2 ==> s == 0)
    requires IsPower(Val(y[0..b.size]), a, r, b.Modulus())
    modifies y, wksp, temp
    ensures b.Valid()
    ensures ok <==> StrongTo(b.Modulus(), a, s, r)
  {
    hide Val, P, IsPower, Rem, NotYet, StrongTo, MinusOneAt;
    ghost var n := b.Modulus();
    NothingYet(n, a, r);
    PMono(0, b.size - 1);
    PSucc(0);
    var j := 0;
    while true
      invariant b.Valid() && b.Modulus() == n && n > 1 && Val(ndata[0..b.size]) == n - 1
      invariant IsPower(Val(y[0..b.size]), a, Doubled(r, j), n)
      invariant j == 0 || j < s
      invariant NotYet(n, a, r, j)
      decreases s - j
    {
      ghost var v: nat := Val(y[0..b.size]);
      Examined(n, a, s, r, j, v);
      var one := MpIsOne(b.size, y, 0);
      if one {
        return j == 0;
      }
      var minusOne := MpEq(b.size, y, 0, ndata, 0);
      if minusOne {
        return true;
      }
      j := j + 1;
      if j < s {
        MpBSqrMod(b, b.size, y, 0, y, 0, wksp, temp);
        SquarePower(v, a, Doubled(r, j - 1), n);
      } else {
        return false;
      }
    }
  }

  lemma NothingYet(n: nat, a: nat, r: nat)
    requires n > 0
    ensures NotYet(n, a, r, 0)
  {
  }

  lemma PowerUnique(v: int, w: int, a: int, e: nat, m: int)
    requires 0 < m && IsPower(v, a, e, m)
    ensures IsPower(w, a, e, m) <==> v == w
  {
  }

  /** No square before the j-th was -1, and the first number was not one. */
  ghost predicate NotYet(n: nat, a: nat, r: nat, j: nat)
    requires n > 0
  {
    && (forall i: nat :: i < j ==> !MinusOneAt(n, a, r, i))
    && (j > 0 ==> !IsPower(1, a, r, n))
  }

  /** What the j-th square v tells. */
  lemma Examined(n: nat, a: nat, s: nat, r: nat, j: nat, v: nat)
    requires n > 1 && (n == 2 ==> s == 0) && IsPower(v, a, Doubled(r, j), n)
    requires (j == 0 || j < s) && NotYet(n, a, r, j)
    ensures v == 1 ==> (StrongTo(n, a, s, r) <==> j == 0)
    ensures v == n - 1 ==> StrongTo(n, a, s, r)
    ensures v != 1 && v != n - 1 ==> NotYet(n, a, r, j + 1)
    ensures v != 1 && v != n - 1 && j + 1 >= s ==> !StrongTo(n, a, s, r)
  {
    hide IsPower;
    PowerUnique(v, 1, a, Doubled(r, j), n);
    PowerUnique(v, n - 1, a, Doubled(r, j), n);
    if v == 1 {
      OneDecides(n, a, s, r, j);
    } else if v == n - 1 {
      assert MinusOneAt(n, a, r, j);
    } else {
      assert Doubled(r, 0) == r;
      assert NotYet(n, a, r, j + 1);
    }
  }

  /** Once a square is one, no later square is -1. */
  lemma OneDecides(n: nat, a: nat, s: nat, r: nat, j: nat)
    requires n > 1 && (n == 2 ==> s == 0) && IsPower(1, a, Doubled(r, j), n)
    requires (j == 0 || j < s) && NotYet(n, a, r, j)
    ensures StrongTo(n, a, s, r) <==> j == 0
  {
    hide IsPower;
    if j > 0 {
      forall k: nat | j <= k
        ensures !MinusOneAt(n, a, r, k)
      {
        OnceOne(n, a, r, j, k);
        PowerUnique(1, n - 1, a, Doubled(r, k), n);
      }
    }
  }

  /** The workspaces of a test: apart from each other and from the modulus. */
  predicate TestSpace(b: MpBarrett, rdata: array<mpw>, ndata: array<mpw>, y: array<mpw>, wksp: array<mpw>,
                      temp: array<mpw>)
    reads b
  {
    && Workspace(b, wksp, temp, y) && y.Length >= b.size && ndata.Length >= b.size && rdata.Length > b.size
    && ndata != y && ndata != wksp && ndata != temp && rdata != y && rdata != wksp && rdata != temp
    && rdata != ndata && rdata != b.modl && ndata != b.modl
  }

  /** ndata is modulus - 1, which is the odd rdata times 2^s. */
  ghost predicate Decomposed(b: MpBarrett, s: nat, rdata: array<mpw>, ndata: array<mpw>)
    reads b, b.modl, rdata, ndata
    requires b.Usable() && rdata.Length >= b.size && ndata.Length >= b.size
  {
    && Val(ndata[0..b.size]) == b.Modulus() - 1
    && Val(rdata[0..b.size]) % 2 == 1
    && Val(rdata[0..b.size]) * P2(s) == b.Modulus() - 1
  }

  lemma DecomposedIs(n: nat, s: nat, r: nat)
    requires n > 1 && r % 2 == 1 && r * P2(s) == n - 1
    ensures forall a: nat :: StrongProbablePrime(n, a) <==> StrongTo(n, a, s, r)
    ensures n == 2 ==> s == 0
    ensures r > 0
  {
    hide StrongTo;
    OddSplit(n - 1, r, s);
  }

  method MpPMilRabTwo(b: MpBarrett, s: nat, rdata: array<mpw>, ndata: array<mpw>, y: array<mpw>, wksp: array<mpw>,
                      temp: array<mpw>)
      returns (ok: bool)
    requires b.Valid() && TestSpace(b, rdata, ndata, y, wksp, temp) && Decomposed(b, s, rdata, ndata)
    modifies y, wksp, temp
    ensures b.Valid() && Decomposed(b, s, rdata, ndata)
    ensures b.Modulus() > 1 && (ok <==> StrongProbablePrime(b.Modulus(), 2))
  {
    hide Val, P, P2, StrongTo, StrongProbablePrime, IsPower;
    ghost var n, r := b.Modulus(), Val(rdata[0..b.size]);
    PMono(0, b.size - 1);
    PSucc(0);
    DecomposedIs(n, s, r);
    MpBTwoPowMod(b, b.size, rdata, 0, y, wksp, temp);
    ok := SquareUntil(b, s, ndata, y, wksp, temp, 2, r);
  }

  method MpPMilRabA(b: MpBarrett, adata: array<mpw>, s: nat, rdata: array<mpw>, ndata: array<mpw>,
                    y: array<mpw>, wksp: array<mpw>, temp: array<mpw>)
      returns (ok: bool)
    requires b.Valid() && TestSpace(b, rdata, ndata, y, wksp, temp) && Decomposed(b, s, rdata, ndata)
    requires adata.Length >= b.size && adata != y && adata != wksp && adata != temp
    modifies y, wksp, temp
    ensures b.Valid() && Decomposed(b, s, rdata, ndata)
    ensures b.Modulus() > 1 && (ok <==> StrongProbablePrime(b.Modulus(), Val(adata[0..b.size])))
  {
    hide Val, P, P2, StrongTo, StrongProbablePrime, IsPower;
    ghost var n, r, a := b.Modulus(), Val(rdata[0..b.size]), Val(adata[0..b.size]);
    PMono(0, b.size - 1);
    PSucc(0);
    DecomposedIs(n, s, r);
    MpBPowMod(b, b.size, adata, 0, b.size, rdata, 0, y, wksp, temp);
    ok := SquareUntil(b, s, ndata, y, wksp, temp, a, r);
  }

  datatype Verdict = Composite | ProbablePrime | NoMoreRandomness

  /** Whether n passes for the next t bases that are drawn. */
  ghost function Verdicts(n: nat, size: nat, words: seq<mpw>, t: nat): Verdict
    requires DrawSize(size, n)
    decreases t
  {
    if t == 0 then ProbablePrime
    else
      match DrawBelow(words, size, n)
      case Nothing => NoMoreRandomness
      case Number(a, rest) => if StrongProbablePrime(n, a) then Verdicts(n, size, rest, t - 1) else Composite
  }

  /** How many random bases are tried: as many as were asked for, one instead of none, and none for a
      negative number. */
  function Rounds(t: int): nat {
    if t == 0 then 1 else if t < 0 then 0 else t
  }

  /** The verdict on n: to the base two, and then to the random bases. */
  ghost function Judged(n: nat, size: nat, words: seq<mpw>, t: int): Verdict
    requires DrawSize(size, n)
  {
    if StrongProbablePrime(n, 2) then Verdicts(n, size, words, Rounds(t)) else Composite
  }

  method MpPMilRab(b: MpBarrett, rng: RandomGenerator, t: int, ndata: array<mpw>, rdata: array<mpw>, adata: array<mpw>,
                   y: array<mpw>, wksp: array<mpw>, temp: array<mpw>)
      returns (verdict: Verdict, ghost bases: seq<nat>)
    requires b.Valid() && TestSpace(b, rdata, ndata, y, wksp, temp)
    requires adata.Length >= b.size && adata != y && adata != wksp && adata != temp && adata != ndata && adata != rdata
    requires adata != b.modl
    modifies rng, ndata, rdata, adata, y, wksp, temp
    ensures b.Valid() && DrawSize(b.size, b.Modulus())
    ensures verdict == Judged(b.Modulus(), b.size, old(rng.words), t)
    ensures verdict == ProbablePrime ==> StrongProbablePrime(b.Modulus(), 2)
    ensures verdict == ProbablePrime ==> |bases| == if t > 0 then t else if t == 0 then 1 else 0
    ensures forall i :: 0 <= i < |bases| ==>
              1 < bases[i] < b.Modulus() - 1 && StrongProbablePrime(b.Modulus(), bases[i])
    ensures |rng.words| + b.size * |bases| <= old(|rng.words|)
  {
    hide Val, P, P2, StrongProbablePrime, IsPrime, DrawBelow, LeadingZeros, DrawSize, Verdicts, Tried;
    ghost var n, before := b.Modulus(), rng.words;
    bases := [];
    NothingTried(n, b.size, |before|);
    var msz := TopZeros(b);
    var s := SplitPredecessor(b, ndata, rdata);
    var left := if t == 0 then 1 else t;
    var ok := MpPMilRabTwo(b, s, rdata, ndata, y, wksp, temp);
    if !ok {
      return Composite, [];
    }
    ghost var total: nat := if left < 0 then 0 else left;
    ghost var all := Verdicts(n, b.size, before, Rounds(t));
    while left > 0
      invariant b.Valid() && b.Modulus() == n && Decomposed(b, s, rdata, ndata) && DrawSize(b.size, n)
      invariant Verdicts(n, b.size, rng.words, if left < 0 then 0 else left) == all
      invariant |bases| + (if left < 0 then 0 else left) == total
      invariant Tried(n, b.size, bases, |before|, |rng.words|) && |rng.words| <= |before|
    {
      VerdictsNext(n, b.size, rng.words, left);
      ghost var have := |rng.words|;
      left := left - 1;
      // modulus - 1 is written again where it already is
      ok := MpBRnd(b, rng, adata, ndata);
      if !ok {
        return NoMoreRandomness, [];
      }
      ok := MpPMilRabA(b, adata, s, rdata, ndata, y, wksp, temp);
      if !ok {
        return Composite, [];
      }
      ghost var a := Val(adata[0..b.size]);
      AnotherTried(n, b.size, bases, |before|, have, a, |rng.words|);
      bases := bases + [a];
    }
    TriedMeans(n, b.size, bases, |before|, |rng.words|);
    VerdictsNext(n, b.size, rng.words, 0);
    verdict := ProbablePrime;
  }

  /** n is strong to each of the bases, and drawing one has taken size of the words or more. */
  ghost predicate Tried(n: nat, size: nat, bases: seq<nat>, had: nat, have: nat)
    requires n > 1
  {
    && (forall i :: 0 <= i < |bases| ==> 1 < bases[i] < n - 1 && StrongProbablePrime(n, bases[i]))
    && have + size * |bases| <= had
  }

  lemma NothingTried(n: nat, size: nat, had: nat)
    requires n > 1
    ensures Tried(n, size, [], had, had)
  {
  }

  lemma AnotherTried(n: nat, size: nat, bases: seq<nat>, had: nat, have: nat, a: nat, left: nat)
    requires n > 1 && Tried(n, size, bases, had, have) && left + size <= have
    requires 1 < a < n - 1 && StrongProbablePrime(n, a)
    ensures Tried(n, size, bases + [a], had, left)
  {
    hide StrongProbablePrime;
    assert size * (|bases| + 1) == size * |bases| + size;
  }

  lemma TriedMeans(n: nat, size: nat, bases: seq<nat>, had: nat, have: nat)
    requires n > 1 && Tried(n, size, bases, had, have)
    ensures forall i :: 0 <= i < |bases| ==> 1 < bases[i] < n - 1 && StrongProbablePrime(n, bases[i])
    ensures have + size * |bases| <= had
  {
    hide StrongProbablePrime;
  }

  lemma VerdictsNext(n: nat, size: nat, words: seq<mpw>, t: nat)
    requires DrawSize(size, n)
    ensures t == 0 ==> Verdicts(n, size, words, t) == ProbablePrime
    ensures t > 0 ==>
              var d := DrawBelow(words, size, n);
              if d.Nothing? then Verdicts(n, size, words, t) == NoMoreRandomness
              else if StrongProbablePrime(n, d.value) then
                Verdicts(n, size, words, t) == Verdicts(n, size, d.rest, t - 1)
              else Verdicts(n, size, words, t) == Composite
  {
    hide StrongProbablePrime, DrawBelow;
  }

  /** What a strong probable prime to the base a is, for n - 1 = r 2^s with an odd r: one of a^r, a^(2 r), .. is
      what it would be for a prime. */
  lemma StrongMeans(n: nat, a: nat, r: nat, s: nat)
    requires n > 1 && r % 2 == 1 && r * P2(s) == n - 1
    ensures StrongProbablePrime(n, a) <==>
            || Rem(Pow(a, r), n) == 1
            || exists j: nat :: (j == 0 || j < s) && Rem(Pow(a, r * P2(j)), n) == n - 1
  {
    hide Rem, Pow, P2, StrongProbablePrime, StrongTo;
    DecomposedIs(n, s, r);
    StrongToMeans(n, a, s, r);
  }

  lemma StrongToMeans(n: nat, a: nat, s: nat, r: nat)
    requires n > 1
    ensures StrongTo(n, a, s, r) <==>
            || Rem(Pow(a, r), n) == 1
            || exists j: nat :: (j == 0 || j < s) && Rem(Pow(a, r * P2(j)), n) == n - 1
  {
    hide Rem, Pow, P2;
    if StrongTo(n, a, s, r) && !IsPower(1, a, r, n) {
      var j: nat :| (j == 0 || j < s) && MinusOneAt(n, a, r, j);
      MinusOneMeans(n, a, r, j);
    } else if j: nat :| (j == 0 || j < s) && Rem(Pow(a, r * P2(j)), n) == n - 1 {
      MinusOneMeans(n, a, r, j);
      assert MinusOneAt(n, a, r, j);
    }
  }

  lemma MinusOneMeans(n: nat, a: nat, r: nat, j: nat)
    requires n > 0
    ensures MinusOneAt(n, a, r, j) <==> Rem(Pow(a, r * P2(j)), n) == n - 1
  {
    hide Rem, Pow, P2;
    DoubledIs(r, j);
  }

  lemma {:induction false} DoubledIs(r: nat, j: nat)
    ensures Doubled(r, j) == r * P2(j)
    decreases j
  {
    hide P2;
    if j > 0 {
      DoubledIs(r, j - 1);
      P2Succ(j - 1);
    } else {
      P2Succ(0);
    }
  }

  /** No odd prime is ever rejected, whatever the random source delivers. */
  lemma PrimesPass(n: nat, size: nat, words: seq<mpw>, t: int)
    requires DrawSize(size, n) && IsPrime(n) && n > 2
    ensures Judged(n, size, words, t) != Composite
  {
    hide StrongProbablePrime, IsPrime, DrawSize;
    NeverRejected(n, 2);
    PrimesPassDraws(n, size, words, Rounds(t));
  }

  lemma {:induction false} PrimesPassDraws(n: nat, size: nat, words: seq<mpw>, t: nat)
    requires DrawSize(size, n) && IsPrime(n) && n > 2
    ensures Verdicts(n, size, words, t) != Composite
    decreases t
  {
    hide StrongProbablePrime, IsPrime, DrawBelow, DrawSize;
    if t > 0 {
      DrawnBounds(words, size, n);
      var d := DrawBelow(words, size, n);
      if d.Number? {
        NeverRejected(n, d.value);
        PrimesPassDraws(n, size, d.rest, t - 1);
      }
    }
  }

  /** What passes for t draws is a strong probable prime to t bases between 1 and n - 1. */
  lemma {:induction false} BasesPassed(n: nat, size: nat, words: seq<mpw>, t: nat) returns (bases: seq<nat>)
    requires DrawSize(size, n) && Verdicts(n, size, words, t) == ProbablePrime
    ensures |bases| == t && forall i :: 0 <= i < t ==> 1 < bases[i] < n - 1 && StrongProbablePrime(n, bases[i])
    decreases t
  {
    hide StrongProbablePrime, DrawBelow, DrawSize;
    bases := [];
    if t > 0 {
      DrawnBounds(words, size, n);
      var d := DrawBelow(words, size, n);
      bases := BasesPassed(n, size, d.rest, t - 1);
      bases := [d.value] + bases;
    }
  }

  lemma NeverRejected(n: nat, a: nat)
    requires n > 1 && 0 < a && (n > 2 ==> a < n)
    ensures IsPrime(n) && n > 2 ==> StrongProbablePrime(n, a)
  {
    hide Rem, StrongProbablePrime, IsPrime;
    if IsPrime(n) && n > 2 {
      RemSmall(a, n);
      PrimeIsStrong(n, a);
    }
  }

  /** Writes modulus - 1 and its odd part, and returns the power of two between them. */
  method SplitPredecessor(b: MpBarrett, ndata: array<mpw>, rdata: array<mpw>) returns (s: nat)
    requires b.Usable() && ndata.Length >= b.size && rdata.Length >= b.size
    requires ndata != rdata && ndata != b.modl && rdata != b.modl
    modifies ndata, rdata
    ensures Decomposed(b, s, rdata, ndata) && b.Modulus() > 1
  {
    hide Val, P, P2;
    PMono(0, b.size - 1);
    PSucc(0);
    PredecessorOf(b, ndata);
    MpCopy(b.size, rdata, 0, ndata, 0);
    s := MpRShiftLsz(b.size, rdata, 0);
  }

  // ----- trial division

  /** The table of products of small odd primes: entry i has i + 1 words. */
  ghost predicate SmallPrimeProducts(table: seq<array<mpw>>)
    reads table
  {
    && |table| > 0
    && forall i :: 0 <= i < |table| ==> table[i].Length == i + 1 && Val(table[i][0..i + 1]) % 2 == 1
  }

  /** The product that a number of size words is tried with. */
  ghost function ProductFor(table: seq<array<mpw>>, size: nat): (r: nat)
    requires SmallPrimeProducts(table) && size > 0
    reads table
    ensures r % 2 == 1
  {
    var n := if size > |table| then |table| else size;
    Val(table[n - 1][0..n])
  }

  /** Accepts the modulus just when it is coprime to the product of small primes. */
  method MpPSpPDiv(b: MpBarrett, table: seq<array<mpw>>, result: array<mpw>, full: array<mpw>, wksp: array<mpw>)
      returns (ok: bool)
    requires b.Sized() && b.Modulus() > 0 && SmallPrimeProducts(table)
    requires result.Length >= b.size && full.Length >= b.size && wksp.Length >= b.size
    requires result != wksp && result != full && full != wksp
    requires b.modl != result && b.modl != wksp && b.modl != full
    requires forall i :: 0 <= i < |table| ==> table[i] != result && table[i] != full && table[i] != wksp
    modifies result, full, wksp
    ensures ok <==> Gcd(b.Modulus(), ProductFor(table, b.size)) == 1
    ensures b.size <= |table| ==> (ok <==> Gcd(b.Modulus(), Val(table[b.size - 1][..])) == 1)
    ensures b.size > |table| ==> (ok <==> Gcd(b.Modulus(), Val(table[|table| - 1][..])) == 1)
    ensures if b.size > |table| then Val(full[0..b.size]) == ProductFor(table, b.size) else full[..] == old(full[..])
  {
    hide Val, P, Gcd;
    var size := b.size;
    assert forall i :: 0 <= i < |table| ==> table[i][..] == table[i][0..i + 1];
    if size > |table| {
      WidenProduct(size, |table|, table[|table| - 1], full);
      ok := GcdIsOne(size, b.modl, full, result, wksp);
    } else {
      assert table[size - 1].Length == size;
      ok := GcdIsOne(size, b.modl, table[size - 1], result, wksp);
    }
  }

  method WidenProduct(size: nat, n: nat, product: array<mpw>, full: array<mpw>)
    requires n < size <= full.Length && n <= product.Length && product != full
    modifies full
    ensures Val(full[0..size]) == Val(product[0..n])
  {
    hide Val, P;
    ghost var T := product[0..n];
    MpSetx(size, full, 0, n, product, 0);
    ShortFits(T, size);
    ResizedIsMod(size, T);
  }

  /** Whether the greatest common divisor of x and the odd y is one. */
  method GcdIsOne(size: nat, x: array<mpw>, y: array<mpw>, result: array<mpw>, wksp: array<mpw>) returns (ok: bool)
    requires 0 < size <= x.Length && size <= y.Length && size <= result.Length && size <= wksp.Length
    requires result != wksp && x != result && x != wksp && y != result && y != wksp
    requires Val(x[0..size]) > 0 && Val(y[0..size]) % 2 == 1
    modifies result, wksp
    ensures ok <==> Gcd(Val(x[0..size]), Val(y[0..size])) == 1
  {
    hide Val, P, Gcd;
    OddOperand(size, Val(x[0..size]), Val(y[0..size]));
    MpGcdW(size, x, 0, y, 0, result, 0, wksp);
    ok := MpIsOne(size, result, 0);
  }

  /** Coprime numbers are those that no number above one divides both. */
  lemma CommonFactor(a: nat, b: nat)
    requires a + b > 0
    ensures Gcd(a, b) == 1 <==> forall d: int :: d > 1 ==> !(Divides(d, a) && Divides(d, b))
  {
    hide Gcd;
    var g := Gcd(a, b);
    forall d: int | d > 1
      ensures Divides(d, a) && Divides(d, b) <==> Divides(d, g)
    {
      GcdDivisors(a, b, d);
    }
    if g == 1 {
      forall d: int | d > 1
        ensures !Divides(d, 1)
      {
        RemSmall(1, d);
      }
    } else {
      DividesIntro(g, g, 1);
    }
  }
}
