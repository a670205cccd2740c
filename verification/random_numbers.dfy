/** Random numbers below a modulus (mpbarrett.c), drawn from an arbitrary source of words. */
module RandomNumbers {
  import opened Arith
  import opened Words
  import opened MpCompare
  import opened MpAddSub
  import opened MpShift
  import opened MpDivide
  import opened Barrett
  import opened MpInverse
  import opened NumberTheory

  /** A random generator that has a finite number of words left to deliver. */
  class RandomGenerator {
    var words: seq<mpw>

    constructor (words: seq<mpw>)
      ensures this.words == words
    {
      this.words := words;
    }

    /** Fills size words, unless the generator has fewer left. */
    method Next(size: nat, data: array<mpw>) returns (ok: bool)
      requires size <= data.Length
      modifies this, data
      ensures ok <==> size <= old(|words|)
      ensures ok ==> words == old(words[size..]) && data[0..size] == old(words[..size])
      ensures !ok ==> words == old(words)
      ensures Framed(data, 0, size)
    {
      ok := size <= |words|;
      if ok {
        var i := 0;
        while i < size
          invariant i <= size && words == old(words)
          invariant forall j :: 0 <= j < i ==> data[j] == words[j]
          invariant Kept(data, 0, size)
        {
          data[i] := words[i];
          i := i + 1;
        }
        words := words[size..];
      }
      FrameWindows(old(data[..]), data[..], 0, size);
    }
  }

  /** A word with its z top bits cleared. */
  function MaskTop(w: mpw, z: nat): (r: mpw)
    requires z <= MP_WBITS
    ensures r as int < P2(MP_WBITS - z)
  {
    var e := P2(MP_WBITS - z);
    assert 0 <= w as int % e < e;
    P2Mono(MP_WBITS - z, MP_WBITS);
    P2Word();
    w as int % e
  }

  /** The value of a draw after its leading z bits are masked away. */
  function Masked(draw: seq<mpw>, z: nat): nat
    requires |draw| > 0 && z <= MP_WBITS
  {
    Val([MaskTop(draw[0], z)] + draw[1..])
  }

  /** The z top bits are taken away, and no others. */
  lemma MaskedWord(w: mpw, z: nat)
    requires z <= MP_WBITS
    ensures MaskTop(w, z) as int == w as int - w as int / P2(MP_WBITS - z) * P2(MP_WBITS - z)
  {
    hide P2;
    DivMod(w, P2(MP_WBITS - z));
  }

  /** Masking keeps the low bits of the draw. */
  lemma MaskedDraw(draw: seq<mpw>, z: nat)
    requires |draw| > 0 && z <= MP_WBITS
    ensures Masked(draw, z) == Val(draw) % P2(MP_WBITS * |draw| - z)
  {
    hide Val, P, P2, MaskTop;
    var n := |draw|;
    var w: mpw, tail := draw[0], draw[1..];
    var e, p := P2(MP_WBITS - z), P(n - 1);
    PIsP2(n - 1);
    P2Add(MP_WBITS - z, MP_WBITS * (n - 1));
    ValCons(draw);
    var s := [MaskTop(w, z)] + tail;
    ValCons(s);
    assert s[1..] == tail;
    ValBound(tail);
    MaskedWord(w, z);
    LowBitsKept(w, w as int / e, MaskTop(w, z), e, p, Val(tail));
  }

  lemma LowBitsKept(w: int, q: int, r: int, e: int, p: int, t: int)
    requires w == q * e + r && 0 <= r < e && 0 < p && 0 <= t < p
    ensures 0 < e * p && (w * p + t) % (e * p) == r * p + t
  {
    MulPos(e, p);
    MulSum(q * e, r, p);
    MulAssoc(q, e, p);
    MulStep(r, e, p);
    MulMono(0, r, p);
    DivModUnique(w * p + t, e * p, q, r * p + t);
  }

  /** The number of significant bits. */
  function BitLength(n: nat): nat {
    if n == 0 then 0 else 1 + BitLength(n / 2)
  }

  lemma {:induction false} BitLengthIs(n: nat, k: nat)
    requires P2(k) <= n < 2 * P2(k)
    ensures BitLength(n) == k + 1
    decreases k
  {
    if k > 0 {
      BitLengthIs(n / 2, k - 1);
    }
  }

  /** The number of bits is the least exponent of a power of two above the number. */
  lemma {:induction false} BitLengthAtMost(n: nat, k: nat)
    ensures BitLength(n) <= k <==> n < P2(k)
  {
    if n > 0 && k > 0 {
      BitLengthAtMost(n / 2, k - 1);
    }
  }

  /** Numbers of the size of m are drawn in size words. */
  ghost predicate DrawSize(size: nat, m: nat) {
    size > 0 && m > 1 && BitLength(m) <= MP_WBITS * size <= BitLength(m) + MP_WBITS
  }

  /** A draw cut to as many bits as m has, and reduced modulo m - 1. */
  ghost function Reduced(draw: seq<mpw>, m: nat): nat
    requires DrawSize(|draw|, m)
  {
    Rem(Masked(draw, MP_WBITS * |draw| - BitLength(m)), m - 1)
  }

  /** A number drawn, and the words that are left; or nothing, when the words run out before. */
  datatype Drawn = Nothing | Number(value: nat, rest: seq<mpw>)

  /** The first draw that gives a number above one decides. */
  ghost function DrawBelow(words: seq<mpw>, size: nat, m: nat): (d: Drawn)
    requires DrawSize(size, m)
    ensures d.Number? ==> |d.rest| < |words|
  {
    if |words| < size then Nothing
    else
      var r := Reduced(words[..size], m);
      if r > 1 then Number(r, words[size..]) else DrawBelow(words[size..], size, m)
  }

  lemma {:induction false} DrawnBounds(words: seq<mpw>, size: nat, m: nat)
    requires DrawSize(size, m)
    ensures var d := DrawBelow(words, size, m); d.Number? ==> 1 < d.value < m - 1
    decreases |words|
  {
    hide Val, P, P2, Rem;
    if |words| >= size {
      var r := Reduced(words[..size], m);
      RemBounds(Masked(words[..size], MP_WBITS * size - BitLength(m)), m - 1);
      if r <= 1 {
        DrawnBounds(words[size..], size, m);
      }
    }
  }

  /** n with its least significant bit set. */
  function WithLsb(n: int): (r: int)
    ensures n <= r <= n + 1 && r % 2 == 1
  {
    n + (1 - n % 2)
  }

  /** The odd number below k that the odd number n is brought down to. */
  function ReducedOdd(n: nat, k: nat): (r: nat)
    requires k > 1 && n % 2 == 1
    ensures r < k && r % 2 == 1
  {
    if n < k then n else ReducedOdd(WithLsb(n - k), k)
  }

  /** The first draw that gives an odd number above one. */
  ghost function OddBelow(words: seq<mpw>, size: nat, m: nat): (d: Drawn)
    requires DrawSize(size, m) && m > 2
    ensures d.Number? ==> |d.rest| < |words| && 1 < d.value < m - 1 && d.value % 2 == 1
  {
    if |words| < size then Nothing
    else
      var r := ReducedOdd(WithLsb(Masked(words[..size], MP_WBITS * size - BitLength(m))), m - 1);
      if r > 1 then Number(r, words[size..]) else OddBelow(words[size..], size, m)
  }

  /** The draw that the parity of the modulus asks for. */
  ghost function EitherBelow(words: seq<mpw>, size: nat, m: nat): (d: Drawn)
    requires DrawSize(size, m) && m > 2
    ensures d.Number? ==> |d.rest| < |words|
  {
    if m % 2 == 0 then OddBelow(words, size, m) else DrawBelow(words, size, m)
  }

  /** The first number drawn that is invertible; only odd ones are drawn for an even modulus. */
  ghost function InvertibleBelow(words: seq<mpw>, size: nat, m: nat): (d: Drawn)
    requires DrawSize(size, m) && m > 2
    ensures d.Number? ==> |d.rest| < |words|
    decreases |words|
  {
    var d := EitherBelow(words, size, m);
    if d.Nothing? || Gcd(m, d.value) == 1 then d else InvertibleBelow(d.rest, size, m)
  }

  /** A number between 1 and modulus - 1, both excluded. The workspace is left holding modulus - 1. */
  method MpBRnd(b: MpBarrett, rng: RandomGenerator, result: array<mpw>, wksp: array<mpw>) returns (ok: bool)
    requires b.Usable() && result.Length >= b.size && wksp.Length >= b.size
    requires result != wksp && result != b.modl && wksp != b.modl
    modifies rng, result, wksp
    ensures Val(wksp[0..b.size]) == b.Modulus() - 1
    ensures DrawSize(b.size, b.Modulus())
    ensures DrawBelow(old(rng.words), b.size, b.Modulus()) ==
            if ok then Number(Val(result[0..b.size]), rng.words) else Nothing
    ensures ok ==> 1 < Val(result[0..b.size]) < b.Modulus() - 1 && |rng.words| + b.size <= old(|rng.words|)
    ensures |rng.words| <= old(|rng.words|)
    ensures Framed(result, 0, b.size) && Framed(wksp, 0, b.size)
  {
    hide Val, P, P2, Reduced, DrawBelow, LeadingZeros, Rem, DrawSize, BitLength;
    ghost var m: nat := b.Modulus();
    ghost var before := rng.words;
    var msz := TopZeros(b);
    PredecessorOf(b, wksp);
    ok := true;
    var again := true;
    while again
      invariant ok && b.Usable() && b.Modulus() == m && DrawSize(b.size, m)
      invariant msz <= MP_WBITS && msz == MP_WBITS * b.size - BitLength(m)
      invariant Val(wksp[0..b.size]) == m - 1
      invariant again ==> DrawBelow(rng.words, b.size, m) == DrawBelow(before, b.size, m)
      invariant !again ==> DrawBelow(before, b.size, m) == Number(Val(result[0..b.size]), rng.words)
      invariant |rng.words| + (if again then 0 else b.size) <= old(|rng.words|)
      invariant Framed(result, 0, b.size) && Framed(wksp, 0, b.size)
      decreases |rng.words|
    {
      ghost var words := rng.words;
      FirstDraw(words, b.size, m);
      ok := rng.Next(b.size, result);
      if !ok {
        break;
      }
      FromDraw(b.size, result, msz, wksp, words[..b.size], m);
      again := MpLeOne(b.size, result, 0);
    }
    DrawnBounds(before, b.size, m);
  }

  /** Masks a draw and brings it below y, which is m - 1. */
  method FromDraw(size: nat, x: array<mpw>, msz: nat, y: array<mpw>, ghost draw: seq<mpw>, ghost m: nat)
    requires 0 < size <= x.Length && size <= y.Length && x != y && DrawSize(size, m)
    requires Val(y[0..size]) == m - 1 && msz == MP_WBITS * size - BitLength(m) && x[0..size] == draw
    modifies x
    ensures Val(x[0..size]) == Rem(Val(draw) % P2(BitLength(m)), m - 1)
    ensures Framed(x, 0, size)
  {
    hide Val, P, P2, Rem, Reduced, BitLength;
    x[0] := MaskTop(x[0], msz);
    FrameWindows(old(x[..]), x[..], 0, size);
    assert x[0..size] == [MaskTop(draw[0], msz)] + draw[1..];
    ReduceBy(size, x, y);
    ReducedIs(draw, msz, m, Val(x[0..size]));
    ReducedDraw(draw, m);
  }

  /** The leading zero bits of the modulus, all of them in its first word. */
  method TopZeros(b: MpBarrett) returns (msz: nat)
    requires b.Usable()
    ensures DrawSize(b.size, b.Modulus()) && msz <= MP_WBITS && msz == MP_WBITS * b.size - BitLength(b.Modulus())
  {
    hide Val, P, P2, BitLength;
    ghost var M := b.modl[0..b.size];
    LeadingNonZero(M);
    PMono(0, b.size - 1);
    PSucc(0);
    msz := MpMszCnt(b.size, b.modl, 0);
    BitLengthIs(Val(M), MP_WBITS * b.size - msz - 1);
  }

  lemma ReducedIs(draw: seq<mpw>, z: nat, m: nat, v: int)
    requires DrawSize(|draw|, m) && z == MP_WBITS * |draw| - BitLength(m)
    requires v == Rem(Masked(draw, z), m - 1)
    ensures v == Reduced(draw, m)
  {
  }

  lemma FirstDraw(words: seq<mpw>, size: nat, m: nat)
    requires DrawSize(size, m)
    ensures if |words| < size then DrawBelow(words, size, m) == Nothing
            else
              var r := Rem(Val(words[..size]) % P2(BitLength(m)), m - 1);
              if r > 1 then DrawBelow(words, size, m) == Number(r, words[size..])
              else DrawBelow(words, size, m) == DrawBelow(words[size..], size, m)
  {
    hide Reduced, Val, P2, Rem, BitLength;
    if |words| >= size {
      ReducedDraw(words[..size], m);
    }
  }

  /** The low bits of the draw, as many as m has, modulo m - 1. */
  lemma ReducedDraw(draw: seq<mpw>, m: nat)
    requires DrawSize(|draw|, m)
    ensures Reduced(draw, m) == Rem(Val(draw) % P2(BitLength(m)), m - 1)
  {
    hide Masked, Val, P2, Rem, BitLength;
    MaskedDraw(draw, MP_WBITS * |draw| - BitLength(m));
  }

  /** The modulus less one. */
  method PredecessorOf(b: MpBarrett, wksp: array<mpw>)
    requires b.Usable() && wksp.Length >= b.size && wksp != b.modl
    modifies wksp
    ensures Val(wksp[0..b.size]) == b.Modulus() - 1
    ensures Framed(wksp, 0, b.size)
  {
    hide Val, P;
    PMono(0, b.size - 1);
    PSucc(0);
    MpCopy(b.size, wksp, 0, b.modl, 0);
    ghost var borrow := MpSubw(b.size, wksp, 0, 1);
    NoBorrowAtAll(wksp[0..b.size], b.Modulus() - 1, borrow);
  }

  /** Subtracts y until x is below it. */
  method ReduceBy(size: nat, x: array<mpw>, y: array<mpw>)
    requires size <= x.Length && size <= y.Length && x != y && Val(y[0..size]) > 0
    modifies x
    ensures Val(x[0..size]) == Rem(old(Val(x[0..size])), Val(y[0..size]))
    ensures Framed(x, 0, size)
  {
    hide Val, P, Rem;
    ghost var m: int := Val(y[0..size]);
    var ge := MpGe(size, x, 0, y, 0);
    while ge
      invariant ge <==> Val(x[0..size]) >= m
      invariant Rem(Val(x[0..size]), m) == Rem(old(Val(x[0..size])), m)
      invariant Framed(x, 0, size)
      decreases Val(x[0..size])
    {
      ghost var v: int := Val(x[0..size]);
      ghost var borrow := MpSub(size, x, 0, y, 0);
      NoBorrowAtAll(x[0..size], v - m, borrow);
      RemPlus(v - m, m, 1);
      ge := MpGe(size, x, 0, y, 0);
    }
    RemSmall(Val(x[0..size]), m);
  }

  /** An odd number between 1 and modulus - 1, both excluded. */
  method MpBRndOdd(b: MpBarrett, rng: RandomGenerator, result: array<mpw>, wksp: array<mpw>) returns (ok: bool)
    requires b.Usable() && b.Modulus() > 2 && result.Length >= b.size && wksp.Length >= b.size
    requires result != wksp && result != b.modl && wksp != b.modl
    modifies rng, result, wksp
    ensures DrawSize(b.size, b.Modulus())
    ensures OddBelow(old(rng.words), b.size, b.Modulus()) ==
            if ok then Number(Val(result[0..b.size]), rng.words) else Nothing
    ensures Framed(result, 0, b.size) && Framed(wksp, 0, b.size)
  {
    hide Val, P, P2, Masked, OddBelow, ReducedOdd, DrawSize, BitLength;
    ghost var m: nat, before := b.Modulus(), rng.words;
    var msz := TopZeros(b);
    PredecessorOf(b, wksp);
    ok := true;
    var again := true;
    while again
      invariant ok && b.Usable() && b.Modulus() == m && DrawSize(b.size, m)
      invariant msz <= MP_WBITS && msz == MP_WBITS * b.size - BitLength(m)
      invariant Val(wksp[0..b.size]) == m - 1
      invariant again ==> OddBelow(rng.words, b.size, m) == OddBelow(before, b.size, m)
      invariant !again ==> OddBelow(before, b.size, m) == Number(Val(result[0..b.size]), rng.words)
      invariant Framed(result, 0, b.size) && Framed(wksp, 0, b.size)
      decreases |rng.words|
    {
      FirstOdd(rng.words, b.size, m);
      ghost var words := rng.words;
      ok := rng.Next(b.size, result);
      if !ok {
        break;
      }
      OddFromDraw(b.size, result, msz, wksp, words[..b.size]);
      again := MpLeOne(b.size, result, 0);
    }
  }

  lemma FirstOdd(words: seq<mpw>, size: nat, m: nat)
    requires DrawSize(size, m) && m > 2
    ensures if |words| < size then OddBelow(words, size, m) == Nothing
            else
              var r := ReducedOdd(WithLsb(Val(words[..size]) % P2(BitLength(m))), m - 1);
              if r > 1 then OddBelow(words, size, m) == Number(r, words[size..])
              else OddBelow(words, size, m) == OddBelow(words[size..], size, m)
  {
    hide ReducedOdd, Masked, Val, P2, BitLength;
    if |words| >= size {
      MaskedDraw(words[..size], MP_WBITS * size - BitLength(m));
    }
  }

  /** Bringing an odd number below k keeps it modulo k, when k is even, and modulo k - 1, when k is odd. */
  lemma {:induction false} ReducedOddIs(n: nat, k: nat)
    requires k > 1 && n % 2 == 1
    ensures ReducedOdd(n, k) == n % (if k % 2 == 0 then k else k - 1)
    decreases n
  {
    hide ReducedOdd, WithLsb;
    var d := if k % 2 == 0 then k else k - 1;
    ReducedOddStep(n, k);
    if n < k {
      DivModUnique(n, d, 0, n);
    } else {
      OddRound(n, k, d);
      ReducedOddIs(n - d, k);
      RemainderLess(n, d);
    }
  }

  lemma OddRound(n: nat, k: nat, d: nat)
    requires n >= k > 1 && n % 2 == 1 && d == if k % 2 == 0 then k else k - 1
    ensures 0 < d <= n && (n - d) % 2 == 1 && WithLsb(n - k) == n - d
  {
  }

  lemma RemainderLess(n: int, d: int)
    requires 0 < d
    ensures (n - d) % d == n % d
  {
    DivMod(n, d);
    MulDiff(n / d, 1, d);
    DivModUnique(n - d, d, n / d - 1, n % d);
  }

  /** Masks a draw, makes it odd and brings it below y. */
  method OddFromDraw(size: nat, x: array<mpw>, msz: nat, y: array<mpw>, ghost draw: seq<mpw>)
    requires 0 < size <= x.Length && size <= y.Length && x != y && Val(y[0..size]) > 1 && msz <= MP_WBITS
    requires x[0..size] == draw
    modifies x
    ensures Val(x[0..size]) == ReducedOdd(WithLsb(Val(draw) % P2(MP_WBITS * size - msz)), Val(y[0..size]))
    ensures Framed(x, 0, size)
  {
    hide Val, P, P2, ReducedOdd;
    MaskedDraw(draw, msz);
    x[0] := MaskTop(x[0], msz);
    FrameWindows(old(x[..]), x[..], 0, size);
    assert x[0..size] == [MaskTop(draw[0], msz)] + draw[1..];
    assert Val(x[0..size]) == Masked(draw, msz);
    MpSetLsb(size, x, 0);
    ReduceOddBy(size, x, y);
  }

  /** Subtracts y and sets the least significant bit until the odd number x is below y. */
  method ReduceOddBy(size: nat, x: array<mpw>, y: array<mpw>)
    requires 0 < size <= x.Length && size <= y.Length && x != y && Val(y[0..size]) > 1
    requires Val(x[0..size]) % 2 == 1
    modifies x
    ensures Val(x[0..size]) == ReducedOdd(old(Val(x[0..size])), Val(y[0..size]))
    ensures Framed(x, 0, size)
  {
    hide Val, P, ReducedOdd, WithLsb;
    ghost var m, v0 := Val(y[0..size]), Val(x[0..size]);
    var ge := MpGe(size, x, 0, y, 0);
    while ge
      invariant ge <==> Val(x[0..size]) >= m
      invariant Val(x[0..size]) % 2 == 1
      invariant ReducedOdd(Val(x[0..size]), m) == ReducedOdd(v0, m)
      invariant Framed(x, 0, size)
      decreases Val(x[0..size])
    {
      ghost var v: nat := Val(x[0..size]);
      ReducedOddStep(v, m);
      ghost var borrow := MpSub(size, x, 0, y, 0);
      NoBorrowAtAll(x[0..size], v - m, borrow);
      MpSetLsb(size, x, 0);
      ge := MpGe(size, x, 0, y, 0);
    }
    ReducedOddStep(Val(x[0..size]), m);
  }

  lemma ReducedOddStep(n: nat, k: nat)
    requires k > 1 && n % 2 == 1
    ensures ReducedOdd(n, k) == if n < k then n else ReducedOdd(WithLsb(n - k), k)
    ensures n >= k ==> WithLsb(n - k) == n - k + (1 - (n - k) % 2)
  {
  }

  /** A number with an inverse modulo b, and that inverse. An even modulus has only odd ones. */
  method MpBRndInv(b: MpBarrett, rng: RandomGenerator, result: array<mpw>, inverse: array<mpw>, wksp: array<mpw>,
                   w: Work)
      returns (ok: bool)
    requires b.Usable() && b.Modulus() > 2 && b.size <= 0x1_0000_0000_0000
    requires result.Length >= b.size && inverse.Length >= b.size && wksp.Length >= b.size
    requires result != wksp && result != b.modl && wksp != b.modl && inverse != b.modl
    requires inverse != result && w.Separate(b.size, b.modl, result, inverse)
    modifies rng, result, inverse, wksp, w.u, w.v, w.a, w.b, w.c, w.d
    ensures DrawSize(b.size, b.Modulus())
    ensures InvertibleBelow(old(rng.words), b.size, b.Modulus()) ==
            if ok then Number(Val(result[0..b.size]), rng.words) else Nothing
    ensures ok ==> 1 < Val(result[0..b.size]) < b.Modulus() - 1
    ensures ok ==> IsInverse(Val(inverse[0..b.size]), Val(result[0..b.size]), b.Modulus())
  {
    hide Val, P, P2, IsInverse, DrawBelow, OddBelow, InvertibleBelow, DrawSize, Gcd;
    ghost var m: nat, before := b.Modulus(), rng.words;
    var msz := TopZeros(b);
    var again := true;
    ok := true;
    while again
      invariant ok && b.Usable() && b.Modulus() == m && DrawSize(b.size, m)
      invariant again ==> InvertibleBelow(rng.words, b.size, m) == InvertibleBelow(before, b.size, m)
      invariant !again ==> InvertibleBelow(before, b.size, m) == Number(Val(result[0..b.size]), rng.words)
      invariant !again ==> 1 < Val(result[0..b.size]) < m - 1
      invariant !again ==> IsInverse(Val(inverse[0..b.size]), Val(result[0..b.size]), m)
      decreases |rng.words|
    {
      FirstInvertible(rng.words, b.size, m);
      ok := DrawEither(b, rng, result, wksp);
      if !ok {
        break;
      }
      var inverted := MpExtGcdW(b.size, b.modl, 0, result, 0, inverse, 0, w);
      again := !inverted;
    }
  }

  lemma FirstInvertible(words: seq<mpw>, size: nat, m: nat)
    requires DrawSize(size, m) && m > 2
    ensures var d := if m % 2 == 0 then OddBelow(words, size, m) else DrawBelow(words, size, m);
            InvertibleBelow(words, size, m) ==
            if d.Nothing? || Gcd(m, d.value) == 1 then d else InvertibleBelow(d.rest, size, m)
  {
    hide Gcd, OddBelow, DrawBelow;
  }

  method DrawEither(b: MpBarrett, rng: RandomGenerator, result: array<mpw>, wksp: array<mpw>) returns (ok: bool)
    requires b.Usable() && b.Modulus() > 2 && result.Length >= b.size && wksp.Length >= b.size
    requires result != wksp && result != b.modl && wksp != b.modl
    modifies rng, result, wksp
    ensures DrawSize(b.size, b.Modulus())
    ensures EitherBelow(old(rng.words), b.size, b.Modulus()) ==
            if ok then Number(Val(result[0..b.size]), rng.words) else Nothing
    ensures ok ==> 1 < Val(result[0..b.size]) < b.Modulus() - 1
    ensures ok ==> b.Modulus() % 2 == 1 || Val(result[0..b.size]) % 2 == 1
  {
    hide Val, P, P2, DrawBelow, OddBelow, DrawSize;
    ghost var m, before := b.Modulus(), rng.words;
    var even := MpEven(b.size, b.modl, 0);
    if even {
      ok := MpBRndOdd(b, rng, result, wksp);
    } else {
      ok := MpBRnd(b, rng, result, wksp);
    }
  }
}
