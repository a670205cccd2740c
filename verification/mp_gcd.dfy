/** Greatest common divisor by shifting and subtracting (mp.c). */
module MpGcd {
  import opened Arith
  import opened NumberTheory
  import opened Words
  import opened MpCompare
  import opened MpAddSub
  import opened MpShift
  import opened MpDivide

  // ----- odd parts

  function TwoAdic(n: nat): nat
    requires n > 0
  {
    if n % 2 == 1 then 0 else 1 + TwoAdic(n / 2)
  }

  function OddPart(n: nat): (r: nat)
    requires n > 0
    ensures r % 2 == 1 && r <= n
  {
    if n % 2 == 1 then n else OddPart(n / 2)
  }

  /** Writing n as an odd number times a power of two can be done in one way only. */
  lemma {:induction false} OddSplit(n: nat, r: nat, s: nat)
    requires n > 0 && r % 2 == 1 && r * P2(s) == n
    ensures s == TwoAdic(n) && r == OddPart(n)
    decreases s
  {
    hide P2;
    if s > 0 {
      var e := P2(s - 1);
      P2Succ(s - 1);
      assert r * (2 * e) == 2 * (r * e);
      OddSplit(r * e, r, s - 1);
    } else {
      P2Succ(0);
    }
  }

  lemma {:induction false} OddPartScaled(n: nat)
    requires n > 0
    ensures OddPart(n) * P2(TwoAdic(n)) == n
  {
    if n % 2 == 0 {
      OddPartScaled(n / 2);
    }
  }

  /** The power of two that two numbers have in common. */
  function TwosInCommon(x: nat, y: nat): nat
    requires x > 0 && y > 0
  {
    if TwoAdic(x) > TwoAdic(y) then TwoAdic(y) else TwoAdic(x)
  }

  /** Factors of two in one number do not matter when the other one is odd. */
  lemma {:induction false} GcdShifted(h: nat, z: nat, b: nat)
    requires b % 2 == 1
    ensures 0 <= h * P2(z) && Gcd(h * P2(z), b) == Gcd(h, b)
    decreases z
  {
    hide Gcd;
    MulMono(0, h, P2(z));
    if z > 0 {
      GcdShifted(h, z - 1, b);
      assert h * P2(z) == 2 * (h * P2(z - 1));
      GcdHalve(h * P2(z - 1), b);
    }
  }

  lemma OddUnshifted(v: nat, z: nat, w: nat)
    requires v * P2(z) == w && w % 2 == 1
    ensures z == 0 && v == w
  {
    var h := if z > 0 then v * P2(z - 1) else 0;
    assert z == 0 || w == 2 * h;
  }

  /** Taking the factors of two out of one of two numbers, not both of which are even. */
  lemma OneShifted(w: nat, z: nat, w': nat, r: nat)
    requires w' * P2(z) == w && (w % 2 == 1 || r % 2 == 1) && w + r > 0 && w' + r > 0
    ensures Gcd(w, r) == Gcd(w', r) && Gcd(r, w) == Gcd(r, w')
    ensures w' <= w
  {
    hide Gcd, P2;
    MulMono(1, P2(z), w');
    if r % 2 == 1 {
      GcdShifted(w', z, r);
    } else {
      OddUnshifted(w', z, w);
    }
    GcdSymmetric(w, r);
    GcdSymmetric(w', r);
  }

  lemma GcdEnd(r: nat)
    requires 0 < r
    ensures Gcd(0, r) == r
  {
    RemSmall(0, r);
  }

  lemma BothShifted(w: nat, z: nat, w': nat, r: nat, z': nat, r': nat)
    requires w > 0 && r > 0 && (w % 2 == 1 || r % 2 == 1)
    requires w' * P2(z) == w && r' * P2(z') == r && w' % 2 == 1 && r' % 2 == 1
    ensures Gcd(w', r') == Gcd(w, r)
    ensures z == 0 || z' == 0
  {
    hide Gcd, P2;
    OneShifted(w, z, w', r);
    OneShifted(r, z', r', w');
    if w % 2 == 1 {
      OddUnshifted(w', z, w);
    } else {
      OddUnshifted(r', z', r);
    }
  }

  /** The greatest common divisor is that of the odd parts, times the power of two in common. */
  lemma {:induction false} GcdOfOddParts(x: nat, y: nat)
    requires x > 0 && y > 0
    ensures Gcd(x, y) == Gcd(OddPart(x), OddPart(y)) * P2(TwosInCommon(x, y))
    decreases x
  {
    hide Gcd, P2;
    if x % 2 == 0 && y % 2 == 0 {
      var h, k := x / 2, y / 2;
      GcdOfOddParts(h, k);
      GcdTwice(h, k);
      P2Succ(TwosInCommon(h, k));
      Twofold(Gcd(OddPart(h), OddPart(k)), P2(TwosInCommon(h, k)));
    } else {
      OddPartScaled(x);
      OddPartScaled(y);
      BothShifted(x, TwoAdic(x), OddPart(x), y, TwoAdic(y), OddPart(y));
      P2Succ(0);
    }
  }

  lemma Twofold(a: int, b: int)
    ensures 2 * (a * b) == a * (2 * b)
  {
  }

  // ----- the loop as a function of the two numbers

  /** What a round makes of two numbers. */
  function GcdStep(w: nat, r: nat): (s: (nat, nat))
    requires w > 0 && r > 0
    ensures s.1 > 0 && s.0 + s.1 < w + r
  {
    var w', r' := OddPart(w), OddPart(r);
    if w' >= r' then (w' - r', r') else (w', r' - w')
  }

  /** A round keeps the greatest common divisor of two numbers that are not both even. */
  lemma StepKeepsGcd(w: nat, r: nat)
    requires w > 0 && r > 0 && (w % 2 == 1 || r % 2 == 1)
    ensures Gcd(GcdStep(w, r).0, GcdStep(w, r).1) == Gcd(w, r)
    ensures GcdStep(w, r).0 % 2 == 1 || GcdStep(w, r).1 % 2 == 1
  {
    hide Gcd, P2, TwoAdic, OddPart;
    var w', r' := OddPart(w), OddPart(r);
    OddPartScaled(w);
    OddPartScaled(r);
    BothShifted(w, TwoAdic(w), w', r, TwoAdic(r), r');
    if w' >= r' {
      GcdSubtract(w', r');
    } else {
      GcdSubtract(r', w');
      GcdSymmetric(w', r');
      GcdSymmetric(w', r' - w');
    }
  }

  /** How many leading words the rounds leave behind: one in a round, when both numbers have let go of it. */
  function WordsSlid(n: nat, w: nat, r: nat): (o: nat)
    requires r > 0
    ensures o <= n && (n > 0 ==> o < n)
    decreases w + r
  {
    if w == 0 || n == 0 then 0 else
      var s := GcdStep(w, r);
      if s.0 < P(n - 1) && s.1 < P(n - 1) then 1 + WordsSlid(n - 1, s.0, s.1) else WordsSlid(n, s.0, s.1)
  }

  lemma SlidStep(n: nat, w: nat, r: nat)
    requires n > 0 && w > 0 && r > 0
    ensures var s := GcdStep(w, r);
            WordsSlid(n, w, r) ==
            if s.0 < P(n - 1) && s.1 < P(n - 1) then 1 + WordsSlid(n - 1, s.0, s.1) else WordsSlid(n, s.0, s.1)
  {
  }

  lemma SlidEnd(n: nat, r: nat)
    requires r > 0
    ensures WordsSlid(n, 0, r) == 0
  {
  }

  /** The same for the two numbers that the routine is given. */
  function SlidBy(size: nat, x: nat, y: nat): (o: nat)
    requires x > 0 && y > 0
    ensures o <= size && (size > 0 ==> o < size)
  {
    if x >= y then WordsSlid(size, OddPart(x), OddPart(y)) else WordsSlid(size, OddPart(y), OddPart(x))
  }

  /** How many words hold the result: those that are left, and one more for each whole word of the shift. */
  function FinalWords(size: nat, x: nat, y: nat): nat
    requires x > 0 && y > 0
  {
    size - SlidBy(size, x, y) + TwosInCommon(x, y) / MP_WBITS
  }

  /** How many words the result begins in front of its buffer. */
  function WordsInFront(size: nat, x: nat, y: nat): nat
    requires x > 0 && y > 0
  {
    if FinalWords(size, x, y) > size then FinalWords(size, x, y) - size else 0
  }

  /** An odd operand leaves nothing to be shifted back. */
  lemma OddOperand(size: nat, x: nat, y: nat)
    requires x > 0 && y > 0 && (x % 2 == 1 || y % 2 == 1)
    ensures TwosInCommon(x, y) == 0 && WordsInFront(size, x, y) == 0
  {
  }

  // ----- the routine

  /** The greatest common divisor of two positive numbers, cut to the words that the loop has left and
      the shift gives back. Words in front of the result that take part are cleared. */
  method MpGcdW(size: nat, x: array<mpw>, xo: nat, y: array<mpw>, yo: nat, result: array<mpw>, ro: nat,
                wksp: array<mpw>)
    requires 0 < size && xo + size <= x.Length && yo + size <= y.Length
    requires ro + size <= result.Length && size <= wksp.Length
    requires result != wksp && x != result && x != wksp && y != result && y != wksp
    requires Val(x[xo..xo + size]) > 0 && Val(y[yo..yo + size]) > 0
    requires WordsInFront(size, Val(x[xo..xo + size]), Val(y[yo..yo + size])) <= ro
    modifies result, wksp
    ensures Val(result[ro..ro + size]) ==
            var X, Y := old(Val(x[xo..xo + size])), old(Val(y[yo..yo + size]));
            Gcd(X, Y) % P(FinalWords(size, X, Y))
    ensures var X, Y := old(Val(x[xo..xo + size])), old(Val(y[yo..yo + size]));
            Val(result[ro..ro + size]) == Gcd(X, Y) <==> Gcd(X, Y) < P(FinalWords(size, X, Y))
    ensures old(TwosInCommon(Val(x[xo..xo + size]), Val(y[yo..yo + size])) % MP_WBITS == 0) ==>
              Val(result[ro..ro + size]) == Gcd(old(Val(x[xo..xo + size])), old(Val(y[yo..yo + size])))
    ensures var front := ro - old(WordsInFront(size, Val(x[xo..xo + size]), Val(y[yo..yo + size])));
            Framed(result, front, ro + size) && forall i :: front <= i < ro ==> result[i] == 0
  {
    hide Val, P, P2, Gcd, TwoAdic, OddPart, WordsSlid, TwosInCommon;
    ghost var X, Y := Val(x[xo..xo + size]), Val(y[yo..yo + size]);
    ValBound(x[xo..xo + size]);
    var shift := CopyOddParts(size, x, xo, y, yo, result, ro, wksp);
    var o := GcdLoop(size, result, ro, wksp);
    ghost var g := Val(result[ro + o..ro + size]);
    assert o == SlidBy(size, X, Y);
    assert g * P2(shift) == Gcd(X, Y) by {
      GcdOfOddParts(X, Y);
      GcdSymmetric(OddPart(X), OddPart(Y));
    }
    GcdBound(X, Y);
    WholeWordShift(g, size - o, shift) by { ValBound(result[ro + o..ro + size]); }
    ShiftBack(size, result, ro, o, shift);
    WholeRemainder(Gcd(X, Y), P(FinalWords(size, X, Y)));
  }

  lemma GcdBound(x: nat, y: nat)
    requires x > 0
    ensures Gcd(x, y) <= x
  {
    hide Gcd, Divides;
    var g := Gcd(x, y);
    assert Divides(g, g) by { DividesIntro(g, g, 1); }
    GcdDivisors(x, y, g);
    DivisorBound(g, x);
  }

  /** A shift by whole words loses nothing when the window has grown by them. */
  lemma WholeWordShift(g: nat, n: nat, shift: nat)
    requires g < P(n)
    ensures shift % MP_WBITS == 0 ==> g * P2(shift) % P(n + shift / MP_WBITS) == g * P2(shift)
  {
    hide P, P2;
    if shift % MP_WBITS == 0 {
      var words := shift / MP_WBITS;
      PIsP2(words);
      PAdd(n, words);
      MulStep(g, P(n), P(words));
      MulMono(0, g, P(words));
      DivModUnique(g * P(words), P(n + words), 0, g * P(words));
    }
  }

  /** The odd parts of the larger and of the smaller number, and the power of two in common. */
  method CopyOddParts(size: nat, x: array<mpw>, xo: nat, y: array<mpw>, yo: nat, result: array<mpw>, ro: nat,
                      wksp: array<mpw>)
      returns (shift: nat)
    requires 0 < size && xo + size <= x.Length && yo + size <= y.Length
    requires ro + size <= result.Length && size <= wksp.Length
    requires result != wksp && x != result && x != wksp && y != result && y != wksp
    requires Val(x[xo..xo + size]) > 0 && Val(y[yo..yo + size]) > 0
    modifies result, wksp
    ensures var X, Y := old(Val(x[xo..xo + size])), old(Val(y[yo..yo + size]));
            && Val(wksp[0..size]) == (if X >= Y then OddPart(X) else OddPart(Y))
            && Val(result[ro..ro + size]) == (if X >= Y then OddPart(Y) else OddPart(X))
            && shift == TwosInCommon(X, Y)
    ensures Framed(result, ro, ro + size)
  {
    hide Val, P, P2, TwoAdic, OddPart;
    var ge := MpGe(size, x, xo, y, yo);
    if ge {
      MpCopy(size, wksp, 0, x, xo);
      MpCopy(size, result, ro, y, yo);
    } else {
      MpCopy(size, wksp, 0, y, yo);
      MpCopy(size, result, ro, x, xo);
    }
    ghost var w, r := Val(wksp[0..size]), Val(result[ro..ro + size]);
    shift := MpRShiftLsz(size, wksp, 0);
    OddSplit(w, Val(wksp[0..size]), shift);
    var temp := MpRShiftLsz(size, result, ro);
    OddSplit(r, Val(result[ro..ro + size]), temp);
    if shift > temp {
      shift := temp;
    }
  }

  /** Shifts and subtracts until the workspace is zero. The windows of both numbers shrink from
      the top, by o words in the end. */
  method GcdLoop(size: nat, result: array<mpw>, ro: nat, wksp: array<mpw>) returns (o: nat)
    requires 0 < size <= wksp.Length && ro + size <= result.Length && result != wksp
    requires Val(result[ro..ro + size]) % 2 == 1
    modifies result, wksp
    ensures o == WordsSlid(size, old(Val(wksp[0..size])), old(Val(result[ro..ro + size]))) < size
    ensures forall i :: ro <= i < ro + o ==> result[i] == 0
    ensures Val(result[ro + o..ro + size]) == Gcd(old(Val(wksp[0..size])), old(Val(result[ro..ro + size])))
    ensures Framed(result, ro, ro + size)
  {
    hide Val, P, P2, Gcd, GcdStep, WordsSlid;
    ghost var w, r := Val(wksp[0..size]), Val(result[ro..ro + size]);
    ghost var slid, g := WordsSlid(size, w, r), Gcd(w, r);
    o := 0;
    var n := size;
    var more := MpNz(n, wksp, o);
    while more
      invariant 0 < n <= size && o == size - n
      invariant forall i :: ro <= i < ro + o ==> result[i] == 0
      invariant w == Val(wksp[o..size]) && r == Val(result[ro + o..ro + size]) > 0
      invariant more <==> w > 0
      invariant w % 2 == 1 || r % 2 == 1
      invariant o + WordsSlid(n, w, r) == slid && Gcd(w, r) == g
      invariant Kept(result, ro, ro + size)
      decreases w + r
    {
      StepKeepsGcd(w, r);
      SlidStep(n, w, r);
      GcdRound(n, result, ro + o, wksp, o);
      ghost var S, T := wksp[o..size], result[ro + o..ro + size];
      w, r := Val(S), Val(T);
      LeadingWordsZero(S, T);
      if wksp[o] == 0 && result[ro + o] == 0 {
        assert S[1..] == wksp[o + 1..size] && T[1..] == result[ro + o + 1..ro + size];
        n, o := n - 1, o + 1;
      }
      more := MpNz(n, wksp, o);
    }
    GcdEnd(r);
    SlidEnd(n, r);
    FrameWindows(old(result[..]), result[..], ro, ro + size);
  }

  lemma LeadingWordZero(s: seq<mpw>)
    requires |s| > 0
    ensures s[0] == 0 <==> Val(s) < P(|s| - 1)
    ensures s[0] == 0 ==> Val(s) == Val(s[1..])
  {
    hide Val, P;
    ValCons(s);
    ValBound(s[1..]);
    if s[0] != 0 {
      MulMono(1, s[0], P(|s| - 1));
    }
  }

  lemma LeadingWordsZero(s: seq<mpw>, t: seq<mpw>)
    requires |s| == |t| > 0 && Val(t) > 0
    ensures s[0] == 0 && t[0] == 0 <==> Val(s) < P(|s| - 1) && Val(t) < P(|s| - 1)
    ensures s[0] == 0 && t[0] == 0 ==> |s| > 1 && Val(s[1..]) == Val(s) && Val(t[1..]) == Val(t)
  {
    hide Val, P;
    LeadingWordZero(s);
    LeadingWordZero(t);
    if |s| == 1 {
      ValOne(t);
    }
  }

  /** The body of the loop, but for the shrinking of the windows. */
  method GcdRound(n: nat, result: array<mpw>, ro: nat, wksp: array<mpw>, o: nat)
    requires 0 < n && ro + n <= result.Length && o + n <= wksp.Length && result != wksp
    requires Val(wksp[o..o + n]) > 0 && Val(result[ro..ro + n]) > 0
    modifies result, wksp
    ensures (Val(wksp[o..o + n]), Val(result[ro..ro + n])) == old(GcdStep(Val(wksp[o..o + n]), Val(result[ro..ro + n])))
    ensures Framed(result, ro, ro + n)
  {
    hide Val, P, P2, OddPart, TwoAdic;
    ghost var w, r := Val(wksp[o..o + n]), Val(result[ro..ro + n]);
    ghost var z := MpRShiftLsz(n, wksp, o);
    ghost var w' := Val(wksp[o..o + n]);
    OddSplit(w, w', z);
    z := MpRShiftLsz(n, result, ro);
    ghost var r' := Val(result[ro..ro + n]);
    OddSplit(r, r', z);
    var ge := MpGe(n, wksp, o, result, ro);
    if ge {
      ghost var borrow := MpSub(n, wksp, o, result, ro);
      NoBorrowAtAll(wksp[o..o + n], w' - r', borrow);
    } else {
      ghost var borrow := MpSub(n, result, ro, wksp, o);
      NoBorrowAtAll(result[ro..ro + n], r' - w', borrow);
    }
  }

  /** Shifts the window up to end, which grows in front by the whole words of the shift. */
  method ShiftGrown(n: nat, result: array<mpw>, end: nat, shift: nat)
    requires n + shift / MP_WBITS <= end <= result.Length
    modifies result
    ensures Val(result[end - n - shift / MP_WBITS..end]) ==
            old(Val(result[end - n..end])) * P2(shift) % P(n + shift / MP_WBITS)
    ensures Framed(result, end - n - shift / MP_WBITS, end)
  {
    hide Val, P, P2;
    var words := shift / MP_WBITS;
    ghost var body, front := result[end - n..end], result[end - n - words..end - n];
    assert result[end - n - words..end] == front + body;
    ValConcat(front, body);
    WordsShiftedOut(Val(front), Val(body), n, words, shift);
    MpLShift(n + words, result, end - n - words, shift);
  }

  /** Moves the result back by the whole words of the shift and shifts it up. */
  method ShiftBack(size: nat, result: array<mpw>, ro: nat, o: nat, shift: nat)
    requires o < size && ro + size <= result.Length && shift / MP_WBITS <= ro + o
    requires forall i :: ro <= i < ro + o ==> result[i] == 0
    requires Val(result[ro + o..ro + size]) * P2(shift) < P(size)
    modifies result
    ensures Val(result[ro..ro + size]) ==
            old(Val(result[ro + o..ro + size])) * P2(shift) % P(size - o + shift / MP_WBITS)
    ensures var front := if shift / MP_WBITS > o then ro + o - shift / MP_WBITS else ro;
            Framed(result, front, ro + size) && forall i :: front <= i < ro ==> result[i] == 0
  {
    hide Val, P, P2;
    var n, start := size - o, ro + o;
    var words := shift / MP_WBITS;
    if words != 0 {
      n, start := n + words, start - words;
    }
    ghost var v, g := Val(result[ro + o..ro + size]) * P2(shift), Val(result[ro + o..ro + size]);
    ShiftGrown(size - o, result, ro + size, shift);
    ghost var all := result[start..ro + size];
    assert Val(all) == v % P(n);
    if start >= ro {
      assert result[ro..ro + size][start - ro..] == all;
      LeadingZeroWords(result[ro..ro + size], start - ro);
      FrameWindows(old(result[..]), result[..], ro, ro + size);
    } else {
      ProductFits(g, shift, size, n);
      SmallValue(all, ro - start);
      assert all[ro - start..] == result[ro..ro + size];
      assert forall i :: start <= i < ro ==> result[i] == all[i - start];
    }
  }

  lemma ProductFits(g: nat, shift: nat, size: nat, n: nat)
    requires size <= n && g * P2(shift) < P(size)
    ensures g * P2(shift) % P(n) == g * P2(shift)
  {
    hide P, P2;
    MulMono(0, g, P2(shift));
    PMono(size, n);
    DivModUnique(g * P2(shift), P(n), 0, g * P2(shift));
  }

  /** Words in front of a number are shifted out with the whole words of the shift. */
  lemma WordsShiftedOut(f: nat, g: nat, n: nat, words: nat, shift: nat)
    requires words == shift / MP_WBITS
    ensures (f * P(n) + g) * P2(shift) % P(n + words) == g * P2(shift) % P(n + words)
  {
    hide P, P2;
    var l := shift % MP_WBITS;
    PIsP2(words);
    P2Add(MP_WBITS * words, l);
    PAdd(n, words);
    var p, q, e := P(n), P(words), P2(l);
    RegroupShift(f, g, p, q, e);
    RemPlus(g * P2(shift), P(n + words), f * e);
  }

  lemma RegroupShift(f: int, g: int, p: int, q: int, e: int)
    ensures (f * p + g) * (q * e) == g * (q * e) + (f * e) * (p * q)
  {
    calc {
      (f * p) * (q * e);
      f * (p * (q * e));
      f * (e * (p * q));
      (f * e) * (p * q);
    }
  }

  lemma LeadingZeroWords(s: seq<mpw>, o: nat)
    requires o <= |s| && forall i :: 0 <= i < o ==> s[i] == 0
    ensures Val(s) == Val(s[o..])
  {
    hide Val, P;
    ValSplit(s, o);
    ValZero(s[..o]);
  }

  /** The leading words of a small number are zero. */
  lemma SmallValue(s: seq<mpw>, k: nat)
    requires k <= |s| && Val(s) < P(|s| - k)
    ensures Val(s[k..]) == Val(s) && forall i :: 0 <= i < k ==> s[i] == 0
  {
    hide Val, P;
    ValSplit(s, k);
    if Val(s[..k]) > 0 {
      MulMono(1, Val(s[..k]), P(|s| - k));
    }
    ValZero(s[..k]);
    assert forall i :: 0 <= i < k ==> s[i] == s[..k][i];
  }

  // ----- when the result is the greatest common divisor

  lemma WholeRemainder(g: int, p: int)
    requires 0 <= g && 0 < p
    ensures g % p == g <==> g < p
  {
    if g < p {
      DivModUnique(g, p, 0, g);
    }
  }

  /** What the routine leaves is one just when the numbers are coprime: of two even numbers it is even. */
  lemma OneJustWhenCoprime(size: nat, x: nat, y: nat)
    requires 0 < size && x > 0 && y > 0
    ensures TwosInCommon(x, y) == 0 || (Gcd(x, y) != 1 && Gcd(x, y) % P(FinalWords(size, x, y)) != 1)
  {
    hide Gcd, P, SlidBy;
    if x % 2 == 0 && y % 2 == 0 {
      var n := FinalWords(size, x, y) - 1;
      GcdTwice(x / 2, y / 2);
      PSucc(n);
      EvenRemainder(Gcd(x / 2, y / 2), W / 2 * P(n));
    }
  }

  lemma EvenRemainder(h: int, k: int)
    requires 0 < k
    ensures (2 * h) % (2 * k) % 2 == 0
  {
    var q, r := h / k, h % k;
    DivMod(h, k);
    MulAssoc(q, 2, k);
    MulAssoc(2, q, k);
    DivModUnique(2 * h, 2 * k, q, 2 * r);
  }

  /** The words in front of the result are fewer than those of the operands. */
  lemma FrontBelow(size: nat, x: nat, y: nat)
    requires 0 < size && 0 < x < P(size) && 0 < y
    ensures WordsInFront(size, x, y) < size
  {
    hide P, P2, SlidBy;
    var z := TwosInCommon(x, y);
    if z >= MP_WBITS * size {
      OddPartScaled(x);
      MulMono(1, OddPart(x), P2(TwoAdic(x)));
      PIsP2(size);
      P2Mono(MP_WBITS * size, TwoAdic(x));
    }
  }

  /** Whether two positive numbers are coprime, with a result that has room in front. */
  method Coprime(n: nat, x: array<mpw>, y: array<mpw>) returns (ok: bool)
    requires 0 < n <= x.Length && n <= y.Length && Val(x[0..n]) > 0 && Val(y[0..n]) > 0
    ensures ok <==> Gcd(Val(x[0..n]), Val(y[0..n])) == 1
  {
    hide Val, P, Gcd, FinalWords, WordsInFront, TwosInCommon;
    ghost var X, Y := Val(x[0..n]), Val(y[0..n]);
    var result, wksp := new mpw[2 * n], new mpw[n];
    ValBound(x[0..n]);
    FrontBelow(n, X, Y);
    OneJustWhenCoprime(n, X, Y);
    MpGcdW(n, x, 0, y, 0, result, n, wksp);
    ok := MpIsOne(n, result, n);
  }

  /** Two operands 3 * 2^63: one word is slid past, none is given back, and the top bit is lost. */
  lemma TopBitLost()
    ensures var x := 3 * (W / 2);
            FinalWords(2, x, x) == 1 && WordsInFront(2, x, x) == 0 && Gcd(x, x) == x && x % P(1) == W / 2
  {
    hide P2, OddPart, TwoAdic, P;
    var x := 3 * (W / 2);
    P2Succ(63);
    P2Word();
    OddSplit(x, 3, 63);
    OddSplit(3, 3, 0) by { P2Succ(0); }
    PSucc(0);
    DivModUnique(x, W, 1, W / 2);
  }

  /** Two operands W^2: one word is slid past and two are given back, one of them in front of the buffer. */
  lemma WordInFront()
    ensures FinalWords(3, W * W, W * W) == 4 && WordsInFront(3, W * W, W * W) == 1
  {
    hide P2, OddPart, TwoAdic, P;
    P2Word();
    P2Add(64, 64);
    OddSplit(W * W, 1, 128);
    OddSplit(1, 1, 0) by { P2Succ(0); }
    PSucc(0);
    PSucc(1);
  }
}
