/** Modular exponentiation with a sliding window of four bits (mpbarrett.c). */
module Power {
  import opened Arith
  import opened Words
  import opened MpCompare
  import opened MpAddSub
  import opened Barrett
  import opened BarrettArith
  import opened MpDivide

  // ----- the tables

  /** For a window n of l bits: squarings before the multiplication. */
  const PRESQ: seq<nat> := [0, 1, 1, 2, 1, 3, 2, 3, 1, 4, 3, 4, 2, 4, 3, 4]

  /** The table entry to multiply by, which is the power 2 * MULG + 1. */
  const MULG: seq<nat> := [0, 0, 0, 1, 0, 2, 1, 3, 0, 4, 2, 5, 1, 6, 3, 7]

  /** Squarings after the multiplication. */
  const POSTSQ: seq<nat> := [0, 0, 1, 0, 2, 0, 1, 0, 3, 0, 1, 0, 2, 0, 1, 0]

  /** A window of l bits with a leading one is an odd number shifted left, and the tables
      spend l squarings on it. */
  lemma Tables(n: nat, l: nat)
    requires 0 < l <= 4 && P2(l - 1) <= n < P2(l)
    ensures n < 16 && PRESQ[n] + POSTSQ[n] == l && MULG[n] < 8
    ensures (2 * MULG[n] + 1) * P2(POSTSQ[n]) == n
  {
    P2Succ(0); P2Succ(1); P2Succ(2); P2Succ(3);
  }

  // ----- the table of odd powers

  /** Entry i of the table holds the power 2i + 1 of x. */
  ghost predicate OddPower(s: seq<mpw>, x: int, i: nat, m: int)
    requires 0 < m
  {
    Rem(Val(s), m) == Rem(Pow(x, 2 * i + 1), m)
  }

  /** Eight buffers of size words, apart from each other. */
  predicate Buffers(slide: seq<array<mpw>>, size: nat) {
    && |slide| == 8
    && (forall i :: 0 <= i < 8 ==> slide[i].Length >= size)
    && (forall i, j :: 0 <= i < j < 8 ==> slide[i] != slide[j])
  }

  /** The buffers hold the odd powers of x. */
  ghost predicate SlideTable(slide: seq<array<mpw>>, size: nat, x: int, m: int)
    requires 0 < m && Buffers(slide, size)
    reads slide
  {
    forall i :: 0 <= i < 8 ==> OddPower(slide[i][0..size], x, i, m)
  }

  predicate SlideWorkspace(b: MpBarrett, slide: seq<array<mpw>>, wksp: array<mpw>, temp: array<mpw>)
    reads b
  {
    Buffers(slide, b.size) && forall i :: 0 <= i < 8 ==> Workspace(b, wksp, temp, slide[i])
  }

  method MpBSlide(b: MpBarrett, xsize: nat, x: array<mpw>, xo: nat, slide: seq<array<mpw>>, wksp: array<mpw>,
                  temp: array<mpw>)
    requires b.Valid() && SlideWorkspace(b, slide, wksp, temp)
    requires 0 < xsize <= b.size && xo + xsize <= x.Length
    requires x != temp && x != wksp && forall i :: 0 <= i < 8 ==> x != slide[i]
    modifies slide, wksp, temp
    ensures b.Valid() && SlideTable(slide, b.size, old(Val(x[xo..xo + xsize])), b.Modulus())
  {
    hide Val, P, Rem, Pow, OddPower;
    var size := b.size;
    ghost var X, v, m := x[xo..xo + xsize], Val(x[xo..xo + xsize]), b.Modulus();
    MpBSqrMod(b, xsize, x, xo, slide[0], 0, wksp, temp);
    ghost var square := slide[0][0..size];
    assert x[xo..xo + xsize] == X;
    MpBMulMod(b, xsize, x, xo, size, slide[0], 0, slide[1], 0, wksp, temp);
    Cube(v, Val(square), slide[1][0..size], m);
    for i := 2 to 8
      invariant b.Valid() && b.Modulus() == m
      invariant slide[0][0..size] == square && x[xo..xo + xsize] == X
      invariant forall j :: 1 <= j < i ==> OddPower(slide[j][0..size], v, j, m)
    {
      StoreNext(b, slide[0], slide[i - 1], slide[i], wksp, temp, v, i);
    }
    StoreFirst(xsize, x, xo, size, slide[0], m);
  }

  /** The odd power before times the square. */
  method StoreNext(b: MpBarrett, square: array<mpw>, last: array<mpw>, next: array<mpw>, wksp: array<mpw>,
                   temp: array<mpw>, ghost v: int, ghost i: nat)
    requires b.Valid() && Workspace(b, wksp, temp, next) && i > 0
    requires square.Length >= b.size && last.Length >= b.size && next.Length >= b.size
    requires square != next && square != wksp && square != temp && last != next && last != wksp && last != temp
    requires Val(square[0..b.size]) == Rem(v * v, b.Modulus()) && OddPower(last[0..b.size], v, i - 1, b.Modulus())
    modifies next, wksp, temp
    ensures b.Valid() && OddPower(next[0..b.size], v, i, b.Modulus())
  {
    hide Val, P, Rem, Pow, OddPower;
    ghost var before, sq, m := last[0..b.size], Val(square[0..b.size]), b.Modulus();
    MpBMulMod(b, b.size, square, 0, b.size, last, 0, next, 0, wksp, temp);
    NextOddPower(v, sq, before, next[0..b.size], i, m);
  }

  /** The number itself, which takes the place of its square. */
  method StoreFirst(xsize: nat, x: array<mpw>, xo: nat, size: nat, first: array<mpw>, ghost m: int)
    requires 0 < m && xsize <= size <= first.Length && xo + xsize <= x.Length && x != first
    modifies first
    ensures OddPower(first[0..size], old(Val(x[xo..xo + xsize])), 0, m)
  {
    hide Val, P, Rem, Pow, OddPower;
    ghost var X := x[xo..xo + xsize];
    ShortFits(X, size);
    ResizedIsMod(size, X);
    MpSetx(size, first, 0, xsize, x, xo);
    FirstPower(Val(X), first[0..size], m);
  }

  lemma Cube(v: int, sq: int, s: seq<mpw>, m: int)
    requires 0 < m && sq == Rem(v * v, m) && Val(s) == Rem(v * sq, m)
    ensures OddPower(s, v, 1, m)
  {
    hide Val, Rem;
    RemRem(v * v, m);
    RemMul(v, v, sq, v * v, m);
    RemRem(v * sq, m);
    assert Pow(v, 3) == v * (v * v) by {
      assert Pow(v, 1) == v * Pow(v, 0);
      assert Pow(v, 2) == v * Pow(v, 1);
    }
  }

  lemma NextOddPower(v: int, sq: int, last: seq<mpw>, s: seq<mpw>, i: nat, m: int)
    requires 0 < m && 0 < i && sq == Rem(v * v, m) && OddPower(last, v, i - 1, m)
    requires Val(s) == Rem(sq * Val(last), m)
    ensures OddPower(s, v, i, m)
  {
    hide Val, Rem;
    var n := 2 * i - 1;
    RemRem(v * v, m);
    RemMul(sq, v * v, Val(last), Pow(v, n), m);
    RemRem(sq * Val(last), m);
    assert Pow(v, n + 2) == v * (v * Pow(v, n)) by {
      assert Pow(v, n + 1) == v * Pow(v, n);
    }
    MulAssoc(v, v, Pow(v, n));
  }

  lemma FirstPower(v: int, s: seq<mpw>, m: int)
    requires 0 < m && Val(s) == v
    ensures OddPower(s, v, 0, m)
  {
    assert Pow(v, 1) == v * Pow(v, 0);
  }

  // ----- exponent bits

  /** v is the power e of x, fully reduced. */
  ghost predicate IsPower(v: int, x: int, e: nat, m: int)
    requires 0 < m
  {
    v == Rem(Pow(x, e), m)
  }

  lemma SquarePower(v: int, x: int, e: nat, m: int)
    requires 0 < m && IsPower(v, x, e, m)
    ensures IsPower(Rem(v * v, m), x, 2 * e, m)
  {
    hide Rem;
    RemRem(Pow(x, e), m);
    RemMul(v, Pow(x, e), v, Pow(x, e), m);
    PowAdd(x, e, e);
    assert e + e == 2 * e;
  }

  lemma TimesPower(v: int, w: int, x: int, e: nat, f: nat, m: int)
    requires 0 < m && IsPower(v, x, e, m) && Rem(w, m) == Rem(Pow(x, f), m)
    ensures IsPower(Rem(v * w, m), x, e + f, m)
  {
    hide Rem;
    RemRem(Pow(x, e), m);
    RemMul(v, Pow(x, e), w, Pow(x, f), m);
    PowAdd(x, e, f);
  }

  /** Squares the result s times. */
  method SquareTimes(b: MpBarrett, s: nat, result: array<mpw>, wksp: array<mpw>, temp: array<mpw>,
                     ghost x: int, ghost e: nat) returns (ghost e': nat)
    requires b.Valid() && Workspace(b, wksp, temp, result) && result.Length >= b.size
    requires IsPower(Val(result[0..b.size]), x, e, b.Modulus())
    modifies result, wksp, temp
    ensures b.Valid()
    ensures e' == e * P2(s) && IsPower(Val(result[0..b.size]), x, e', b.Modulus())
  {
    hide Val, P, P2, IsPower;
    ghost var t, m := 0, b.Modulus();
    e' := e;
    P2Succ(0);
    var i := s;
    while i > 0
      invariant 0 <= i <= s && t == s - i
      invariant b.Valid() && b.Modulus() == m
      invariant e' == e * P2(t) && IsPower(Val(result[0..b.size]), x, e', m)
    {
      ghost var v := Val(result[0..b.size]);
      MpBSqrMod(b, b.size, result, 0, result, 0, wksp, temp);
      SquarePower(v, x, e', m);
      P2Succ(t);
      assert e * (2 * P2(t)) == 2 * (e * P2(t));
      i, t, e' := i - 1, t + 1, 2 * e';
    }
  }

  /** The bits read so far are pre; the first of them are done, the last l are pending as n. */
  ghost predicate Pending(done: nat, n: nat, l: nat, pre: int) {
    && pre == done * P2(l) + n
    && if n == 0 then l == 0 else 0 < l <= 4 && P2(l - 1) <= n < P2(l)
  }

  /** All that exponentiation needs: the modulus, the table of powers of x and the workspace. */
  ghost predicate Ready(b: MpBarrett, slide: seq<array<mpw>>, result: array<mpw>, wksp: array<mpw>,
                        temp: array<mpw>, x: int)
    reads b, b.modl, slide
  {
    && b.Valid() && b.Modulus() > 0
    && SlideWorkspace(b, slide, wksp, temp) && SlideTable(slide, b.size, x, b.Modulus())
    && Workspace(b, wksp, temp, result) && result.Length >= b.size && result !in slide
  }

  /** Multiplies the pending window into the result. */
  method Flush(b: MpBarrett, slide: seq<array<mpw>>, n: nat, result: array<mpw>, wksp: array<mpw>, temp: array<mpw>,
               ghost x: int, ghost done: nat, ghost l: nat, ghost pre: nat)
    requires Ready(b, slide, result, wksp, temp, x)
    requires n > 0 && Pending(done, n, l, pre) && IsPower(Val(result[0..b.size]), x, done, b.Modulus())
    modifies result, wksp, temp
    ensures Ready(b, slide, result, wksp, temp, x)
    ensures IsPower(Val(result[0..b.size]), x, pre, b.Modulus())
  {
    hide Val, P, P2, IsPower, Rem, Pow;
    Tables(n, l);
    var i, before, after := MULG[n], PRESQ[n], POSTSQ[n];
    var power := slide[i];
    ghost var m, odd := b.Modulus(), 2 * i + 1;
    assert OddPower(power[0..b.size], x, i, m);
    ghost var w := Val(power[0..b.size]);
    ghost var e := SquareTimes(b, before, result, wksp, temp, x, done);
    ghost var v := Val(result[0..b.size]);
    MpBMulMod(b, b.size, result, 0, b.size, power, 0, result, 0, wksp, temp);
    TimesPower(v, w, x, e, odd, m);
    ghost var e' := SquareTimes(b, after, result, wksp, temp, x, e + odd);
    P2Add(before, after);
    Flushed(done, P2(before), P2(after), odd, e');
  }

  lemma Flushed(done: nat, a: int, c: int, odd: int, e: int)
    requires e == (done * a + odd) * c
    ensures e == done * (a * c) + odd * c
  {
    MulSum(done * a, odd, c);
    MulAssoc(done, a, c);
  }

  /** One bit of the exponent. */
  method ScanBit(b: MpBarrett, slide: seq<array<mpw>>, bit: nat, n: nat, l: nat,
                 result: array<mpw>, wksp: array<mpw>, temp: array<mpw>, ghost x: int, ghost done: nat, ghost pre: nat)
      returns (n': nat, l': nat, ghost done': nat)
    requires Ready(b, slide, result, wksp, temp, x)
    requires bit <= 1 && l < 4 && Pending(done, n, l, pre) && IsPower(Val(result[0..b.size]), x, done, b.Modulus())
    modifies result, wksp, temp
    ensures Ready(b, slide, result, wksp, temp, x)
    ensures l' < 4 && Pending(done', n', l', 2 * pre + bit)
    ensures IsPower(Val(result[0..b.size]), x, done', b.Modulus())
  {
    hide Val, P, P2, IsPower, SlideTable;
    n', l', done' := 2 * n + bit, l, done;
    ghost var pre' := 2 * pre + bit;
    P2Succ(l);
    assert done * (2 * P2(l)) == 2 * (done * P2(l));
    if n' != 0 {
      if l != 0 {
        l' := l + 1;
        P2Succ(l - 1);
      } else if bit != 0 {
        l' := 1;
        P2Succ(0);
      }
      assert Pending(done, n', l', pre');
      if l' == 4 {
        Flush(b, slide, n', result, wksp, temp, x, done, l', pre');
        done', n', l' := pre', 0, 0;
        P2Succ(0);
      }
    } else {
      ghost var v := Val(result[0..b.size]);
      MpBSqrMod(b, b.size, result, 0, result, 0, wksp, temp);
      SquarePower(v, x, done, b.Modulus());
      done' := 2 * done;
      P2Succ(0);
    }
  }

  /** The count bits that are left of a word, moved to its top. */
  ghost predicate BitsLeft(temp: mpw, count: nat, rem: nat) {
    count <= MP_WBITS && rem < P2(count) && temp as int == rem * P2(MP_WBITS - count)
  }

  /** Takes the top bit off. */
  lemma NextBitLeft(temp: mpw, count: nat, rem: nat) returns (rem': nat)
    requires BitsLeft(temp, count, rem) && count > 0
    ensures BitsLeft(ShlOne(temp), count - 1, rem')
    ensures rem == Msb(temp) * P2(count - 1) + rem'
  {
    hide P2, ShlOne, Msb;
    var e, f, bit := P2(MP_WBITS - count), P2(count - 1), Msb(temp);
    P2Word();
    P2Add(MP_WBITS - count, count - 1);
    P2Succ(count - 1);
    P2Succ(MP_WBITS - count);
    TopBitOff(temp, rem, e, f);
    rem' := if rem < f then rem else rem - f;
  }

  lemma TopBitOff(temp: mpw, rem: int, e: int, f: int)
    requires 0 < e && 0 < f && e * f == W / 2 && temp as int == rem * e
    ensures rem < f ==> Msb(temp) == 0 && ShlOne(temp) as int == rem * (2 * e)
    ensures rem >= f ==> Msb(temp) == 1 && ShlOne(temp) as int == (rem - f) * (2 * e)
  {
    hide P2;
    if rem < f {
      MulStep(rem, f, e);
      MulAssoc(2, rem, e);
    } else {
      MulMono(f, rem, e);
      MulDiff(rem, f, e);
      MulAssoc(2, rem - f, e);
    }
  }

  lemma AllBitsLeft(w: mpw)
    ensures BitsLeft(w, MP_WBITS, w)
  {
    hide P2;
    P2Word();
    P2Succ(0);
  }

  /** The bits that are left of a word, from the top down. */
  method ScanWord(b: MpBarrett, slide: seq<array<mpw>>, word: mpw, bits: nat, n: nat, l: nat,
                  result: array<mpw>, wksp: array<mpw>, temp: array<mpw>,
                  ghost x: int, ghost done: nat, ghost pre: nat, ghost rem: nat)
      returns (n': nat, l': nat, ghost done': nat)
    requires Ready(b, slide, result, wksp, temp, x)
    requires l < 4 && Pending(done, n, l, pre) && IsPower(Val(result[0..b.size]), x, done, b.Modulus())
    requires BitsLeft(word, bits, rem)
    modifies result, wksp, temp
    ensures Ready(b, slide, result, wksp, temp, x)
    ensures l' < 4 && Pending(done', n', l', pre * P2(bits) + rem)
    ensures IsPower(Val(result[0..b.size]), x, done', b.Modulus())
  {
    hide Val, P, P2, IsPower, SlideTable, SlideWorkspace, Pending, BitsLeft;
    n', l', done' := n, l, done;
    ghost var m, all := b.Modulus(), pre * P2(bits) + rem;
    ghost var pre': nat, rem': nat := pre, rem;
    var w, count := word, bits;
    while count > 0
      invariant Ready(b, slide, result, wksp, temp, x) && b.Modulus() == m
      invariant l' < 4 && Pending(done', n', l', pre') && IsPower(Val(result[0..b.size]), x, done', m)
      invariant BitsLeft(w, count, rem') && pre' * P2(count) + rem' == all
    {
      var bit := Msb(w);
      n', l', done' := ScanBit(b, slide, bit, n', l', result, wksp, temp, x, done', pre');
      ghost var r := NextBitLeft(w, count, rem');
      P2Succ(count - 1);
      ReadBit(pre', bit, P2(count - 1), rem', r);
      pre', rem' := 2 * pre' + bit, r;
      w, count := ShlOne(w), count - 1;
    }
    NoBitsLeft(w, rem', pre');
  }

  lemma NoBitsLeft(w: mpw, rem: nat, pre: nat)
    requires BitsLeft(w, 0, rem)
    ensures rem == 0 && pre * P2(0) == pre
  {
  }

  lemma ReadBit(pre: int, bit: int, f: int, rem: int, rem': int)
    requires rem == bit * f + rem'
    ensures (2 * pre + bit) * f + rem' == pre * (2 * f) + rem
  {
  }

  /** Skips the leading zero bits of a non-zero word. */
  method SkipBits(word: mpw) returns (w: mpw, count: nat)
    requires word != 0
    ensures 0 < count && BitsLeft(w, count, word)
  {
    hide P2, BitsLeft;
    w, count := word, MP_WBITS;
    AllBitsLeft(word);
    while Msb(w) == 0
      invariant 0 < count && BitsLeft(w, count, word)
      decreases count
    {
      ghost var r := NextBitLeft(w, count, word);
      SomeBitsLeft(word, count - 1, ShlOne(w));
      w, count := ShlOne(w), count - 1;
    }
  }

  lemma SomeBitsLeft(word: mpw, count: nat, w: mpw)
    requires word != 0 && BitsLeft(w, count, word)
    ensures count > 0
  {
  }

  /** The power of the exponent p, read from the table of odd powers of x. */
  method MpBPowModSld(b: MpBarrett, slide: seq<array<mpw>>, psize: nat, p: array<mpw>, po: nat,
                      result: array<mpw>, wksp: array<mpw>, temp: array<mpw>, ghost x: int)
    requires Ready(b, slide, result, wksp, temp, x)
    requires po + psize <= p.Length && p != result && p != wksp && p != temp
    modifies result, wksp, temp
    ensures b.Valid()
    ensures IsPower(Val(result[0..b.size]), x, old(Val(p[po..po + psize])), b.Modulus())
  {
    hide Val, P, P2, IsPower, SlideTable, SlideWorkspace, Pending, BitsLeft;
    ghost var E, m := p[po..po + psize], b.Modulus();
    ValBound(b.modl[0..b.size]);
    PMono(0, b.size - 1);
    PSucc(0);
    MpSetw(b.size, result, 0, 1);
    PowerZero(x, m);
    var i := 0;
    while i < psize && p[po + i] == 0
      invariant i <= psize
      invariant forall j :: 0 <= j < i ==> E[j] == 0
    {
      assert E[i] == 0;
      i := i + 1;
    }
    ValSplit(E, i);
    ValZero(E[..i]);
    if i < psize {
      var n, l, done := ScanWords(b, slide, psize, p, po, i, result, wksp, temp, x);
      assert E[..psize] == E;
      if n != 0 {
        Flush(b, slide, n, result, wksp, temp, x, done, l, Val(E));
      } else {
        NothingPending(done, n, l, Val(E));
      }
    } else {
      ValEmpty(E[i..]);
    }
  }

  lemma PowerZero(x: int, m: int)
    requires 1 < m
    ensures IsPower(1, x, 0, m)
  {
    RemSmall(1, m);
  }

  lemma NothingPending(done: nat, n: nat, l: nat, pre: nat)
    requires Pending(done, n, l, pre) && n == 0
    ensures done == pre
  {
  }

  /** The words of the exponent from its first non-zero word, at index i. */
  method ScanWords(b: MpBarrett, slide: seq<array<mpw>>, psize: nat, p: array<mpw>, po: nat, first: nat,
                   result: array<mpw>, wksp: array<mpw>, temp: array<mpw>, ghost x: int)
      returns (n: nat, l: nat, ghost done: nat)
    requires Ready(b, slide, result, wksp, temp, x)
    requires po + psize <= p.Length && p != result && p != wksp && p != temp
    requires first < psize && p[po + first] != 0 && Val(p[po..po + psize][..first]) == 0
    requires IsPower(Val(result[0..b.size]), x, 0, b.Modulus())
    modifies result, wksp, temp
    ensures Ready(b, slide, result, wksp, temp, x)
    ensures l < 4 && Pending(done, n, l, old(Val(p[po..po + psize])))
    ensures IsPower(Val(result[0..b.size]), x, done, b.Modulus())
  {
    hide Val, P, P2, IsPower, SlideTable, SlideWorkspace, Pending, BitsLeft;
    ghost var E, m := p[po..po + psize], b.Modulus();
    var word, count := SkipBits(p[po + first]);
    ghost var w: mpw := E[first];
    NoneYet();
    n, l, done := ScanWord(b, slide, word, count, 0, 0, result, wksp, temp, x, 0, 0, w);
    Snoc(E[..first], w, E[..first + 1]);
    var i := first + 1;
    while i < psize
      invariant first < i <= psize
      invariant Ready(b, slide, result, wksp, temp, x) && b.Modulus() == m
      invariant l < 4 && Pending(done, n, l, Val(E[..i])) && IsPower(Val(result[0..b.size]), x, done, m)
    {
      w := E[i];
      AllBitsLeft(w);
      P2Word();
      assert p[po + i] == w;
      n, l, done := ScanWord(b, slide, p[po + i], MP_WBITS, n, l, result, wksp, temp, x, done, Val(E[..i]), w);
      Snoc(E[..i], w, E[..i + 1]);
      i := i + 1;
    }
    assert E[..psize] == E;
  }

  lemma NoneYet()
    ensures Pending(0, 0, 0, 0)
  {
  }

  /** x to the power p. With a zero exponent the result is left as it was. */
  method MpBPowMod(b: MpBarrett, xsize: nat, x: array<mpw>, xo: nat, psize: nat, p: array<mpw>, po: nat,
                   result: array<mpw>, wksp: array<mpw>, temp: array<mpw>)
    requires b.Valid() && Workspace(b, wksp, temp, result) && result.Length >= b.size
    requires 0 < xsize <= b.size && xo + xsize <= x.Length && x != temp && x != wksp
    requires 0 < psize && po + psize <= p.Length && p != result && p != wksp && p != temp
    modifies result, wksp, temp
    ensures b.Valid()
    ensures old(Val(p[po..po + psize])) > 0 ==>
              IsPower(Val(result[0..b.size]), old(Val(x[xo..xo + xsize])), old(Val(p[po..po + psize])), b.Modulus())
    ensures old(Val(p[po..po + psize])) == 0 ==> result[..] == old(result[..])
  {
    hide Val, P, P2, IsPower, SlideTable;
    ghost var E, X := p[po..po + psize], Val(x[xo..xo + xsize]);
    var i := 0;
    while i < psize && p[po + i] == 0
      invariant i <= psize
      invariant forall j :: 0 <= j < i ==> E[j] == 0
    {
      assert E[i] == 0;
      i := i + 1;
    }
    FirstNonZero(E, i);
    if i < psize {
      var slide := NewSlide(b.size);
      MpBSlide(b, xsize, x, xo, slide, wksp, temp);
      assert p[po + i..po + i + (psize - i)] == E[i..];
      MpBPowModSld(b, slide, psize - i, p, po + i, result, wksp, temp, X);
    }
  }

  lemma FirstNonZero(E: seq<mpw>, i: nat)
    requires i <= |E| && forall j :: 0 <= j < i ==> E[j] == 0
    requires i < |E| ==> E[i] != 0
    ensures Val(E) == Val(E[i..])
    ensures Val(E) > 0 <==> i < |E|
  {
    hide Val, P;
    ValSplit(E, i);
    ValZero(E[..i]);
    ValZero(E[i..]);
    if i < |E| {
      assert E[i..][0] != 0;
    }
  }

  method NewSlide(size: nat) returns (slide: seq<array<mpw>>)
    ensures Buffers(slide, size) && forall i :: 0 <= i < 8 ==> fresh(slide[i])
  {
    slide := [];
    for i := 0 to 8
      invariant |slide| == i
      invariant forall j :: 0 <= j < i ==> fresh(slide[j]) && slide[j].Length >= size
      invariant forall j, k :: 0 <= j < k < i ==> slide[j] != slide[k]
    {
      var buffer := new mpw[size];
      slide := slide + [buffer];
    }
  }

  // ----- powers of two

  /** Doubles a reduced number modulo the modulus. */
  method DoubleMod(b: MpBarrett, result: array<mpw>)
    requires b.Valid() && result.Length >= b.size && result != b.modl
    requires Val(result[0..b.size]) < b.Modulus()
    modifies result
    ensures b.Valid() && Val(result[0..b.size]) == Rem(2 * old(Val(result[0..b.size])), b.Modulus())
  {
    hide Val, P, Rem;
    ghost var v, m, n := Val(result[0..b.size]), b.Modulus(), b.size;
    ValBound(b.modl[0..n]);
    var carry := MpAdd(b.size, result, 0, result, 0);
    var ge := carry != 0;
    if !ge {
      ge := MpGe(b.size, result, 0, b.modl, 0);
    }
    ghost var borrow := 0;
    if ge {
      borrow := MpSub(b.size, result, 0, b.modl, 0);
    }
    ValBound(result[0..n]);
    ReducedDouble(v, m, P(n), carry, borrow, ge, Val(result[0..n]));
  }

  lemma ReducedDouble(v: int, m: int, p: int, carry: int, borrow: int, ge: bool, w: int)
    requires 0 <= v < m <= p && 0 <= w < p && 0 <= carry <= 1 && 0 <= borrow <= 1
    requires ge <==> carry != 0 || m <= 2 * v
    requires w == 2 * v - carry * p - (if ge then m - borrow * p else 0)
    ensures w == Rem(2 * v, m)
  {
    hide Rem;
    if ge {
      RemPlus(2 * v - m, m, 1);
      RemSmall(2 * v - m, m);
      MulDiff(borrow, carry, p);
      SameResidue(w, 2 * v - m, borrow - carry, p);
    } else {
      RemSmall(2 * v, m);
    }
  }

  lemma DoublePower(v: int, e: nat, m: int)
    requires 0 < m && IsPower(v, 2, e, m)
    ensures IsPower(Rem(2 * v, m), 2, e + 1, m)
  {
    hide Rem;
    RemRem(Pow(2, e), m);
    RemMul(2, 2, v, Pow(2, e), m);
  }

  /** Two to the power p. The word behind the exponent is read, but not used. */
  method MpBTwoPowMod(b: MpBarrett, psize: nat, p: array<mpw>, po: nat, result: array<mpw>, wksp: array<mpw>,
                      temp: array<mpw>)
    requires b.Valid() && Workspace(b, wksp, temp, result) && result.Length >= b.size
    requires po + psize < p.Length && p != result && p != wksp && p != temp
    modifies result, wksp, temp
    ensures b.Valid()
    ensures IsPower(Val(result[0..b.size]), 2, old(Val(p[po..po + psize])), b.Modulus())
  {
    hide Val, P, P2, IsPower, BitsLeft;
    ghost var E, m := p[po..po + psize], b.Modulus();
    PMono(0, b.size - 1);
    PSucc(0);
    MpSetw(b.size, result, 0, 1);
    PowerZero(2, m);
    var i := 0;
    while i < psize && p[po + i] == 0
      invariant i <= psize
      invariant forall j :: 0 <= j < i ==> E[j] == 0
    {
      assert E[i] == 0;
      i := i + 1;
    }
    ValSplit(E, i);
    ValZero(E[..i]);
    if i < psize {
      var word, count := SkipBits(p[po + i]);
      ghost var pre: nat, rem: nat := 0, p[po + i];
      ghost var j := i;
      Snoc(E[..i], E[i], E[..i + 1]);
      while i < psize
        invariant j <= i <= psize && p[po..po + psize] == E
        invariant b.Valid() && b.Modulus() == m
        invariant IsPower(Val(result[0..b.size]), 2, pre, m)
        invariant i < psize ==> BitsLeft(word, count, rem) && pre * P2(count) + rem == Val(E[..i + 1])
        invariant i == psize ==> pre == Val(E)
      {
        TwoScanWord(b, word, count, result, wksp, temp, pre, rem);
        pre := Val(E[..i + 1]);
        // the next word, which on the last round lies behind the exponent
        count, word := MP_WBITS, p[po + i + 1];
        i := i + 1;
        if i < psize {
          rem := p[po + i];
          assert E[i] == p[po + i];
          AllBitsLeft(word);
          P2Word();
          Snoc(E[..i], E[i], E[..i + 1]);
        } else {
          assert E[..i] == E;
        }
      }
    } else {
      ValEmpty(E[i..]);
    }
  }

  /** The bits that are left of a word: squares, and doubles for a one. */
  method TwoScanWord(b: MpBarrett, word: mpw, bits: nat, result: array<mpw>, wksp: array<mpw>, temp: array<mpw>,
                     ghost pre: nat, ghost rem: nat)
    requires b.Valid() && Workspace(b, wksp, temp, result) && result.Length >= b.size
    requires IsPower(Val(result[0..b.size]), 2, pre, b.Modulus()) && BitsLeft(word, bits, rem)
    modifies result, wksp, temp
    ensures b.Valid() && IsPower(Val(result[0..b.size]), 2, pre * P2(bits) + rem, b.Modulus())
  {
    hide Val, P, P2, IsPower, BitsLeft, Rem;
    ghost var m, all := b.Modulus(), pre * P2(bits) + rem;
    ghost var pre': nat, rem': nat := pre, rem;
    var w, count := word, bits;
    while count > 0
      invariant b.Valid() && b.Modulus() == m
      invariant IsPower(Val(result[0..b.size]), 2, pre', m)
      invariant BitsLeft(w, count, rem') && pre' * P2(count) + rem' == all
    {
      ghost var v := Val(result[0..b.size]);
      MpBSqrMod(b, b.size, result, 0, result, 0, wksp, temp);
      SquarePower(v, 2, pre', m);
      var bit := Msb(w);
      if bit != 0 {
        ghost var v' := Val(result[0..b.size]);
        RemBounds(v * v, m);
        DoubleMod(b, result);
        DoublePower(v', 2 * pre', m);
      }
      ghost var r := NextBitLeft(w, count, rem');
      P2Succ(count - 1);
      ReadBit(pre', bit, P2(count - 1), rem', r);
      pre', rem' := 2 * pre' + bit, r;
      w, count := ShlOne(w), count - 1;
    }
    NoBitsLeft(w, rem', pre');
  }
}
