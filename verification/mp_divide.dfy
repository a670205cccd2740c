/** Long division of multi-precision numbers (mp.c). */
module MpDivide {
  import opened Arith
  import opened Words
  import opened MpCompare
  import opened MpAddSub
  import opened MpMultiply
  import opened MpShift

  // ----- dividing a double word by a word

  /** The quotient of a double word by a word, in the word type. */
  function Estimate(xhi: mpw, xlo: mpw, y: mpw): (r: int)
    requires y > 0
  {
    (xhi * W + xlo) / y % W
  }

  /** One quotient bit at a time. The quotient has one bit more than a word when xhi >= y, and
      that bit is shifted away. */
  method MpPNDiv(xhi: mpw, xlo: mpw, y: mpw) returns (result: mpw)
    requires xhi as int < 2 * y as int
    ensures result as int == Estimate(xhi, xlo, y)
    ensures result as int == (xhi * W + xlo) / y as int % W
  {
    hide P2, Lo, ShlOne;
    ghost var n, g, rem, t := xhi * W + xlo, 0, xhi as int, 0;
    P2Succ(0);
    P2Word();
    var hi: mpw, lo: mpw, carry: int := xhi, xlo, 0;
    result := 0;
    var count := MP_WBITS;
    while count > 0
      invariant 0 <= count <= MP_WBITS && t == MP_WBITS - count
      invariant (carry == 0 || carry == 1) && rem == carry * W + hi
      invariant 0 <= g && result as int == g % W
      invariant 0 <= rem < 2 * y as int
      invariant n * P2(t) == (g * y + rem) * W + lo
    {
      ghost var bit := Bit(rem >= y as int);
      NextModulo(g, result);
      if carry != 0 || hi >= y {
        hi := WrapSub(hi, y, 0);
        result := Lo(result as int + 1);
      }
      g, rem := NextBit(n, g, rem, y, lo, t, bit, result);
      carry := Msb(hi);
      hi := ShlOne(hi) + Msb(lo);
      lo := ShlOne(lo);
      result := ShlOne(result);
      count, t := count - 1, t + 1;
    }
    LastBit(n, g, rem, y, lo);
    NextModulo(g, result);
    assert Estimate(xhi, xlo, y) == (g + Bit(rem >= y as int)) % W;
    if carry != 0 || hi >= y {
      result := Lo(result as int + 1);
    }
  }

  /** The invariant of the bit loop from one round to the next. */
  lemma NextBit(n: int, g: int, rem: int, y: mpw, lo: mpw, t: nat, bit: int, result: mpw) returns (g': int, rem': int)
    requires 0 <= g && 0 <= rem < 2 * y as int && bit == Bit(rem >= y as int)
    requires n * P2(t) == (g * y + rem) * W + lo as int
    requires result as int == (g + bit) % W
    ensures g' == 2 * (g + bit) && rem' == 2 * (rem - bit * y) + Msb(lo)
    ensures n * P2(t + 1) == (g' * y + rem') * W + ShlOne(lo) as int
    ensures 0 <= rem - bit * y < y as int
    ensures ShlOne(result) as int == g' % W
  {
    hide P2;
    P2Succ(t);
    g', rem' := 2 * (g + bit), 2 * (rem - bit * y) + Msb(lo);
    assert (g + bit) * y == g * y + bit * y;
    assert g' * y == 2 * (g * y + bit * y);
    assert n * (2 * P2(t)) == 2 * (n * P2(t));
    DoubledModulo(g + bit, result);
  }

  lemma DoubledModulo(h: int, r: mpw)
    requires r as int == h % W
    ensures ShlOne(r) as int == 2 * h % W
  {
  }

  lemma NextModulo(h: int, r: mpw)
    requires r as int == h % W
    ensures Lo(r as int + 1) as int == (h + 1) % W
  {
  }

  lemma LastBit(n: int, g: int, rem: int, y: mpw, lo: mpw)
    requires 0 <= rem < 2 * y as int
    requires n * P2(MP_WBITS) == (g * y + rem) * W + lo as int
    ensures n / y as int == g + Bit(rem >= y as int)
  {
    hide P2;
    P2Word();
    assert n == g * y + rem;
    var b := Bit(rem >= y as int);
    assert (g + b) * y == g * y + b * y;
    DivModUnique(n, y, g + b, rem - b * y);
  }

  // ----- one digit of a quotient

  function Min(a: int, b: int): (r: int)
    ensures r <= a && r <= b && (r == a || r == b)
  {
    if a < b then a else b
  }

  /** The estimate of a digit is never low, and at most two too high. */
  lemma EstimateBounds(r: seq<mpw>, y: seq<mpw>)
    requires |r| == |y| + 1 && |y| > 0
    requires y[0] >= W / 2 && r[0] < y[0]
    ensures Val(y) > 0
    ensures Val(r) / Val(y) <= Estimate(r[0], r[1], y[0]) <= Val(r) / Val(y) + 2
  {
    hide Val, P, Estimate;
    var n := |y|;
    var p := P(n - 1);
    PSucc(n - 1);
    ValCons(y);
    ValBound(y[1..]);
    ValSplit(r, 2);
    ValBound(r[2..]);
    ValSnoc(r[..2]);
    ValOne(r[..2][..1]);
    var top := r[0] * W + r[1];
    assert Val(r[..2]) == top;
    EstimateArithmetic(top, r[0], r[1], y[0], p, Val(r[2..]), Val(y[1..]));
  }

  lemma EstimateArithmetic(top: int, r0: mpw, r1: mpw, y0: mpw, p: int, rl: int, yl: int)
    requires y0 >= W / 2 && r0 < y0 && top == r0 * W + r1
    requires 0 <= rl < p && 0 <= yl < p
    ensures 0 < y0 * p + yl
    ensures (top * p + rl) / (y0 * p + yl) <= Estimate(r0, r1, y0) <= (top * p + rl) / (y0 * p + yl) + 2
  {
    var a := y0 * p;
    var Y, R := a + yl, top * p + rl;
    MulPos(y0, p);
    MulStep(r0, y0, W);
    MulMono(0, top, p);
    var e, q := top / y0 as int, R / Y;
    DivMod(top, y0);
    DivMod(R, Y);
    DigitBound(top, y0, e, W);
    DivModUnique(e, W, 0, e);
    NonNegative(R, Y);
    NotLow(q, e, y0, top, p, a, Y, R);
    NotHigh(q, e, y0, top, p, a, yl, Y, R);
  }

  lemma NonNegative(n: int, d: int)
    requires 0 <= n && 0 < d
    ensures 0 <= n / d
  {
    DivMod(n, d);
    if n / d < 0 {
      MulStep(n / d, 0, d);
    }
  }

  lemma DigitBound(n: int, d: int, e: int, w: int)
    requires 0 < d && 0 <= n < w * d && e == n / d
    ensures 0 <= e < w
  {
    DivMod(n, d);
    NonNegative(n, d);
    if e >= w {
      MulMono(w, e, d);
    }
  }

  lemma NotLow(q: int, e: int, y0: int, top: int, p: int, a: int, Y: int, R: int)
    requires 0 < p && 0 < y0 && a == y0 * p <= Y && R < top * p + p
    requires top < e * y0 + y0 && 0 <= q
    requires q * Y <= R
    ensures q <= e
  {
    MulMono(a, Y, q);
    MulAssoc(q, y0, p);
    assert a * q == q * a && Y * q == q * Y;
    // (q * y0) * p <= R < (top + 1) * p, hence q * y0 <= top
    if q * y0 > top {
      MulStep(top, q * y0, p);
    }
    if q > e {
      MulStep(e, q, y0);
    }
  }

  lemma NotHigh(q: int, e: int, y0: int, top: int, p: int, a: int, yl: int, Y: int, R: int)
    requires W / 2 <= y0 && a == y0 * p && Y == a + yl && 0 <= yl < p && top * p <= R
    requires e * y0 <= top && 0 <= e < W
    requires R < q * Y + Y
    ensures e <= q + 2
  {
    assert e * a <= R by {
      MulMono(e * y0, top, p);
      MulAssoc(e, y0, p);
    }
    assert W * p <= 2 * a by {
      MulMono(W / 2, y0, p);
    }
    MulBound(e, yl, W, p);
    MulPos(y0, p);
    FewMultiples(e, q, a, yl, Y, W * p);
  }

  lemma FewMultiples(e: int, q: int, a: int, yl: int, Y: int, w: int)
    requires 0 <= e && 0 <= yl && 0 < a && e * yl <= w <= 2 * a && Y == a + yl
    requires e * a < q * Y + Y
    ensures e <= q + 2
  {
    assert e * Y == e * a + e * yl;
    MulDiff(e, q + 1, Y);
    assert (q + 1) * Y == q * Y + Y;
    if e >= q + 3 {
      MulMono(2, e - (q + 1), Y);
    }
  }

  /** In the case of equal leading words the estimate is far too low. */
  lemma EqualWords(r: seq<mpw>, y: seq<mpw>)
    requires |r| == |y| + 1 && |y| > 0
    requires y[0] >= W / 2 && r[0] == y[0]
    ensures Estimate(r[0], r[1], y[0]) <= 1
    ensures Val(y) > 0 && Val(r) / Val(y) >= 2
  {
    hide Val, P, Estimate;
    var n := |y|;
    PSucc(n - 1);
    ValCons(y);
    ValCons(r);
    ValBound(y[1..]);
    EqualEstimate(y[0], r[1]);
    EqualLeading(y[0], P(n - 1), Val(y), Val(y[1..]), Val(r), Val(r[1..]));
    AtLeastTwo(Val(r), Val(y));
  }

  lemma EqualLeading(y0: int, p: int, Y: int, yl: int, R: int, rl: int)
    requires W / 2 <= y0 && 0 < p && 0 <= yl < p && 0 <= rl
    requires Y == y0 * p + yl && R == y0 * (W * p) + rl
    ensures 0 < Y && 2 * Y <= R
  {
    var a := y0 * p;
    MulPos(y0, p);
    assert y0 * (W * p) == W * a;
  }

  lemma EqualEstimate(y0: mpw, r1: mpw)
    requires y0 >= W / 2
    ensures Estimate(y0, r1, y0) <= 1
  {
    var d := if r1 >= y0 then 1 else 0;
    DivModUnique(y0 * W + r1, y0, W + d, r1 as int - d * y0);
    DivModUnique(W + d, W, 1, d);
  }

  lemma AtLeastTwo(n: int, d: int)
    requires 0 < d && 2 * d <= n
    ensures n / d >= 2
  {
    DivMod(n, d);
    if n / d <= 1 {
      MulMono(n / d, 1, d);
    }
  }

  /** The digit that one step of long division arrives at: the estimate, or the true digit
      when that is smaller. */
  ghost function DigitOf(r: seq<mpw>, y: seq<mpw>): (q: int)
    requires |r| == |y| + 1 && |y| > 0 && y[0] >= W / 2
  {
    LeadingPositive(y);
    Min(Estimate(r[0], r[1], y[0]), Val(r) / Val(y))
  }

  /** While the product in ws exceeds the remainder, the digit is lowered by one. */
  method Correct(n: nat, r: array<mpw>, ro: nat, y: array<mpw>, yo: nat, ws: array<mpw>, wo: nat, e: mpw)
      returns (q: mpw)
    requires ro + n + 1 <= r.Length && yo + n <= y.Length && wo + n + 1 <= ws.Length
    requires ws != r && r != y && Apart(ws, wo, n + 1, y, yo, n)
    requires Val(ws[wo..wo + n + 1]) == Val(y[yo..yo + n]) * e
    modifies ws
    ensures q <= e
    ensures Val(ws[wo..wo + n + 1]) == old(Val(y[yo..yo + n])) * q <= Val(r[ro..ro + n + 1])
    ensures q == e || Val(r[ro..ro + n + 1]) < old(Val(y[yo..yo + n])) * q + old(Val(y[yo..yo + n]))
    ensures Framed(ws, wo, wo + n + 1)
  {
    hide Val, P;
    ghost var Y, R := Val(y[yo..yo + n]), Val(r[ro..ro + n + 1]);
    q := e;
    var less := MpLt(n + 1, r, ro, ws, wo);
    while less
      invariant Kept(ws, wo, wo + n + 1)
      invariant Val(ws[wo..wo + n + 1]) == Y * q
      invariant less <==> R < Y * q
      invariant q <= e && (q == e || R < Y * q + Y)
      decreases q
    {
      assert y[yo..yo + n] == old(y[yo..yo + n]);
      ghost var carry := MpSubx(n + 1, ws, wo, n, y, yo);
      NoBorrow(ws[wo..wo + n + 1], Y, q, carry);
      q := q - 1;
      less := MpLt(n + 1, r, ro, ws, wo);
    }
    FrameWindows(old(ws[..]), ws[..], wo, wo + n + 1);
  }

  /** One step of long division: the digit is the smaller one of the estimate and the true digit. */
  method Digit(n: nat, r: array<mpw>, ro: nat, y: array<mpw>, yo: nat, ws: array<mpw>, wo: nat) returns (q: mpw)
    requires 0 < n && ro + n + 1 <= r.Length && yo + n <= y.Length && wo + n + 1 <= ws.Length
    requires ws != r && r != y && Apart(ws, wo, n + 1, y, yo, n)
    requires y[yo] >= W / 2
    modifies r, ws
    ensures q as int == old(DigitOf(r[ro..ro + n + 1], y[yo..yo + n]))
    ensures Val(r[ro..ro + n + 1]) == old(Val(r[ro..ro + n + 1])) - q * old(Val(y[yo..yo + n]))
    ensures Framed(r, ro, ro + n + 1) && Framed(ws, wo, wo + n + 1)
  {
    hide Val, P, Estimate;
    ghost var Y, R := Val(y[yo..yo + n]), Val(r[ro..ro + n + 1]);
    LeadingPositive(y[yo..yo + n]);
    q := MpPNDiv(r[ro], r[ro + 1], y[yo]);
    ghost var e: int := q;
    SetRow(n, ws, wo + 1, y, yo, q);
    assert r[ro..ro + n + 1] == old(r[ro..ro + n + 1]);
    assert y[yo..yo + n] == old(y[yo..yo + n]);
    q := Correct(n, r, ro, y, yo, ws, wo, q);
    Reached(R, Y, q, e);
    assert r[ro..ro + n + 1] == old(r[ro..ro + n + 1]);
    ghost var carry := MpSub(n + 1, r, ro, ws, wo);
    NoBorrowAtAll(r[ro..ro + n + 1], R - Y * q, carry);
  }

  lemma LeadingPositive(y: seq<mpw>)
    requires |y| > 0 && y[0] > 0
    ensures Val(y) >= P(|y| - 1) > 0
  {
    hide Val, P;
    ValCons(y);
    MulMono(1, y[0], P(|y| - 1));
  }

  lemma NoBorrow(s: seq<mpw>, Y: int, q: int, carry: int)
    requires q >= 1 && Y >= 0 && (carry == 0 || carry == 1)
    requires Val(s) == Y * q - Y + carry * P(|s|)
    ensures Val(s) == Y * (q - 1)
  {
    hide Val, P;
    assert Y * (q - 1) == Y * q - Y;
    MulMono(0, q - 1, Y);
    assert (q - 1) * Y == Y * (q - 1);
    ValBound(s);
  }

  lemma NoBorrowAtAll(s: seq<mpw>, v: int, carry: int)
    requires v >= 0 && (carry == 0 || carry == 1)
    requires Val(s) == v + carry * P(|s|)
    ensures Val(s) == v
  {
    hide Val, P;
    ValBound(s);
  }

  lemma Reached(R: int, Y: int, q: int, e: int)
    requires Y > 0 && Y * q <= R && q <= e
    requires q == e || R < Y * q + Y
    ensures q == Min(e, R / Y)
  {
    DivMod(R, Y);
    assert q * Y == Y * q;
    if R / Y < q {
      MulStep(R / Y, q, Y);
    }
    if R / Y > q {
      MulStep(q, R / Y, Y);
    }
  }

  // ----- whole quotients

  /** In long division of x by the n-word number v, the partial remainder left by the first i
      words of x has the leading word of v as its own leading word. */
  ghost predicate EqualWordsAt(x: seq<mpw>, i: nat, n: nat, v: int)
    requires 0 < n && 0 < v && i <= |x|
  {
    (Val(x[..i]) % v) / P(n - 1) == v / P(n - 1)
  }

  /** No partial remainder that occurs before word m of x is of that kind. */
  ghost predicate NoEqualWords(x: seq<mpw>, m: nat, n: nat, v: int)
    requires 0 < n && 0 < v && m <= |x|
  {
    forall i :: n <= i < m ==> !EqualWordsAt(x, i, n, v)
  }

  /** Nothing can be equal when the divisor is a single word. */
  lemma SingleWordNeverEqual(x: seq<mpw>, v: int)
    requires 0 < v
    ensures NoEqualWords(x, |x|, 1, v)
  {
    PSucc(0);
    forall i | 1 <= i < |x|
      ensures !EqualWordsAt(x, i, 1, v)
    {
      DivMod(Val(x[..i]), v);
    }
  }

  lemma LeadingWord(s: seq<mpw>)
    requires |s| > 0
    ensures Val(s) / P(|s| - 1) == s[0]
  {
    hide Val, P;
    ValCons(s);
    ValBound(s[1..]);
    DivModUnique(Val(s), P(|s| - 1), s[0], Val(s[1..]));
  }

  /** A digit is the true one exactly when the leading words differ. */
  lemma TrueDigit(r: seq<mpw>, y: seq<mpw>)
    requires |r| == |y| + 1 && |y| > 0 && y[0] >= W / 2
    requires Val(r[..|y|]) < Val(y)
    ensures Val(y) > 0
    ensures DigitOf(r, y) == Val(r) / Val(y) <==> r[0] != y[0]
    ensures r[0] != y[0] ==> r[0] < y[0]
  {
    hide Val, P, Estimate;
    var n := |y|;
    LeadingPositive(y);
    LeadingWord(y);
    LeadingWord(r[..n]);
    QuotientMono(Val(r[..n]), Val(y), P(n - 1));
    if r[0] < y[0] {
      EstimateBounds(r, y);
    } else {
      EqualWords(r, y);
    }
  }

  lemma QuotientMono(a: int, b: int, d: int)
    requires 0 < d && a <= b
    ensures a / d <= b / d
  {
    DivMod(a, d);
    DivMod(b, d);
    if b / d < a / d {
      MulStep(b / d, a / d, d);
    }
  }

  /** Taking one more digit of the dividend into account. */
  lemma LongDivision(a: int, w: int, v: int, a': int, r: int)
    requires 0 < v && 0 <= w < W && 0 <= a
    requires a' == a * W + w && r == Rem(a, v) * W + w
    ensures Quo(a', v) == Quo(a, v) * W + Quo(r, v)
    ensures Rem(a', v) == Rem(r, v)
    ensures 0 <= Quo(r, v) < W
  {
    var q := a / v;
    DivMod(a, v);
    DivMod(r, v);
    MulStep(a % v, v, W);
    if r / v >= W {
      MulMono(W, r / v, v);
    }
    if r / v < 0 {
      MulStep(r / v, 0, v);
    }
    assert (q * W + r / v) * v == (q * v) * W + r / v * v;
    DivModUnique(a * W + w, v, q * W + r / v, r % v);
  }

  /** What the first i words of the dividend have become: quotient and remainder, unless two
      equal leading words have spoilt the quotient. */
  ghost predicate Divided(x: seq<mpw>, i: nat, n: nat, v: int, Q: seq<mpw>, R: seq<mpw>)
    requires i <= |x| && 0 < n && 0 < v
  {
    if NoEqualWords(x, i, n, v)
    then Val(Q) == Quo(Val(x[..i]), v) && Val(R) == Rem(Val(x[..i]), v)
    else Val(Q) != Quo(Val(x[..i]), v)
  }

  /** One digit further. */
  lemma DividedNext(x: seq<mpw>, i: nat, y: seq<mpw>, Q: seq<mpw>, r: seq<mpw>, q: mpw, r': seq<mpw>)
    requires |y| <= i < |x| && |r| == |r'| == |y| + 1 && |y| > 0 && y[0] >= W / 2 && Val(y) > 0
    requires Divided(x, i, |y|, Val(y), Q, r[..|y|]) && r[|y|] == x[i]
    requires q as int == DigitOf(r, y) && Val(r') == Val(r) - q * Val(y)
    ensures Divided(x, i + 1, |y|, Val(y), Q + [q], r'[1..])
    ensures NoEqualWords(x, i + 1, |y|, Val(y)) <==> NoEqualWords(x, i, |y|, Val(y)) && r'[0] == 0
  {
    hide Val, P, Estimate, DigitOf, EqualWordsAt, NoEqualWords, Quo, Rem;
    var n, v, a: int, w: int := |y|, Val(y), Val(x[..i]), x[i];
    Snoc(x[..i], x[i], x[..i + 1]);
    Snoc(Q, q, Q + [q]);
    var t := Rem(a, v) * W + w;
    LongDivision(a, w, v, Val(x[..i + 1]), t);
    NoEqualWordsNext(x, i, n, v);
    SameDigits(Val(Q), q, Quo(a, v), Quo(t, v), Val(Q + [q]), Quo(Val(x[..i + 1]), v));
    if NoEqualWords(x, i, n, v) {
      NextDigit(x, i, y, r, q, r');
      assert Val(r) == t;
    }
  }

  lemma Snoc(s: seq<mpw>, w: mpw, t: seq<mpw>)
    requires t == s + [w]
    ensures Val(t) == Val(s) * W + w
  {
    hide Val;
    ValSnoc(t);
    assert t[..|s|] == s;
  }

  lemma NoEqualWordsNext(x: seq<mpw>, i: nat, n: nat, v: int)
    requires n <= i < |x| && 0 < n && 0 < v
    ensures NoEqualWords(x, i + 1, n, v) <==> NoEqualWords(x, i, n, v) && !EqualWordsAt(x, i, n, v)
  {
    hide EqualWordsAt;
  }

  lemma SameDigits(a: int, d: int, b: int, e: int, a': int, b': int)
    requires 0 <= d < W && 0 <= e < W
    requires a' == a * W + d && b' == b * W + e
    ensures a' == b' <==> a == b && d == e
  {
  }

  lemma NextDigit(x: seq<mpw>, i: nat, y: seq<mpw>, r: seq<mpw>, q: mpw, r': seq<mpw>)
    requires |y| <= i < |x| && |r| == |r'| == |y| + 1 && |y| > 0 && y[0] >= W / 2 && Val(y) > 0
    requires Val(r[..|y|]) == Rem(Val(x[..i]), Val(y)) && r[|y|] == x[i]
    requires q as int == DigitOf(r, y) && Val(r') == Val(r) - q * Val(y)
    ensures Val(r) == Rem(Val(x[..i]), Val(y)) * W + x[i]
    ensures q as int == Quo(Val(r), Val(y)) <==> !EqualWordsAt(x, i, |y|, Val(y))
    ensures q as int == Quo(Val(r), Val(y)) ==> r'[0] == 0 && Val(r'[1..]) == Rem(Val(r), Val(y))
    ensures EqualWordsAt(x, i, |y|, Val(y)) ==> r'[0] != 0
  {
    hide Val, P, Estimate, DigitOf;
    ValSnoc(r);
    TrueDigit(r, y);
    LeadingWord(y);
    LeadingWord(r[..|y|]);
    DivMod(Val(r), Val(y));
    if q as int == Val(r) / Val(y) {
      SmallRemainder(r', y);
    } else {
      StrayWord(r, y, q, r');
    }
  }

  /** With equal leading words the digit is at most one, and a word is left on top. */
  lemma StrayWord(r: seq<mpw>, y: seq<mpw>, q: int, r': seq<mpw>)
    requires |r| == |r'| == |y| + 1 && |y| > 0 && y[0] >= W / 2 && r[0] == y[0]
    requires q == DigitOf(r, y) && Val(r') == Val(r) - q * Val(y)
    ensures r'[0] != 0
  {
    hide Val, P, Estimate;
    EqualWords(r, y);
    assert q <= 1;
    MulMono(q, 1, Val(y));
    ValCons(r);
    ValCons(r');
    ValBound(y);
    ValBound(r'[1..]);
    MulMono(2, r[0], P(|y|));
  }

  /** A remainder below the divisor has a zero word on top. */
  lemma SmallRemainder(r: seq<mpw>, y: seq<mpw>)
    requires |r| == |y| + 1 && Val(r) < Val(y)
    ensures r[0] == 0 && Val(r[1..]) == Val(r)
  {
    hide Val, P;
    ValCons(r);
    ValBound(y);
    if r[0] > 0 {
      MulMono(1, r[0], P(|y|));
    }
  }

  /** The first quotient word: the leading words of x hold y at most once. */
  lemma FirstDivided(x: seq<mpw>, y: seq<mpw>, q: mpw, r: seq<mpw>)
    requires 0 < |y| <= |x| && |r| == |y| && y[0] >= W / 2 && Val(y) > 0
    requires q == if Val(x[..|y|]) >= Val(y) then 1 else 0
    requires Val(r) == Val(x[..|y|]) - q * Val(y)
    ensures Divided(x, |y|, |y|, Val(y), [q], r)
  {
    hide Val, P;
    TopHalf(y);
    ValBound(x[..|y|]);
    ValOne([q]);
    DivModUnique(Val(x[..|y|]), Val(y), q, Val(r));
  }

  /** Quotient and remainder: result becomes the words of the quotient followed by those of
      the remainder. */
  method MpNDivMod(result: array<mpw>, xsize: nat, x: array<mpw>, ysize: nat, y: array<mpw>, yo: nat, ws: array<mpw>)
    requires 0 < ysize <= xsize
    requires result.Length > xsize && x.Length >= xsize && y.Length >= yo + ysize && ws.Length > ysize
    requires result != x && result != y && result != ws && ws != x && ws != y
    requires y[yo] >= W / 2
    modifies result, ws
    ensures old(Val(y[yo..yo + ysize])) > 0
    ensures result[0] == if old(Val(x[..xsize][..ysize])) >= old(Val(y[yo..yo + ysize])) then 1 else 0
    ensures var X, Y, m := old(x[..xsize]), old(Val(y[yo..yo + ysize])), xsize - ysize + 1;
            && (Val(result[..m]) == Quo(Val(X), Y) <==> NoEqualWords(X, xsize, ysize, Y))
            && (NoEqualWords(X, xsize, ysize, Y) ==> Val(result[m..m + ysize]) == Rem(Val(X), Y))
    ensures Framed(result, 0, xsize + 1)
  {
    hide Val, P, DigitOf, Divided, NoEqualWords, Quo, Rem;
    ghost var X, Y := x[..xsize], y[yo..yo + ysize];
    LeadingPositive(Y);
    StartDivision(result, xsize, x, ysize, y, yo);
    var i, p := ysize, 1;
    while i < xsize
      invariant ysize <= i <= xsize && p == i - ysize + 1
      invariant result[0] == if Val(X[..ysize]) >= Val(Y) then 1 else 0
      invariant result[1 + i..1 + xsize] == X[i..]
      invariant y[yo..yo + ysize] == Y
      invariant Divided(X, i, ysize, Val(Y), result[..p], result[p..p + ysize])
      invariant Kept(result, 0, xsize + 1)
    {
      QuotientWord(result, xsize, i, p, X, y, yo, ysize, ws);
      i, p := i + 1, p + 1;
    }
    EndDivided(X, ysize, Val(Y), result[..p], result[p..p + ysize]);
    FrameWindows(old(result[..]), result[..], 0, xsize + 1);
  }

  /** The body of the loop of mpndivmod. */
  method QuotientWord(result: array<mpw>, ghost xsize: nat, ghost i: nat, p: nat, ghost X: seq<mpw>,
                      y: array<mpw>, yo: nat, ysize: nat, ws: array<mpw>)
    requires 0 < ysize <= i < xsize == |X| && p == i - ysize + 1
    requires result.Length > xsize && y.Length >= yo + ysize && ws.Length > ysize
    requires result != y && result != ws && ws != y
    requires y[yo] >= W / 2 && Val(y[yo..yo + ysize]) > 0
    requires result[1 + i..1 + xsize] == X[i..]
    requires Divided(X, i, ysize, Val(y[yo..yo + ysize]), result[..p], result[p..p + ysize])
    modifies result, ws
    ensures result[2 + i..1 + xsize] == X[i + 1..]
    ensures Divided(X, i + 1, ysize, old(Val(y[yo..yo + ysize])), result[..p + 1], result[p + 1..p + 1 + ysize])
    ensures Framed(result, p, xsize + 1)
  {
    hide Val, P, DigitOf, Divided;
    ghost var Q, r, Y := result[..p], result[p..p + ysize + 1], y[yo..yo + ysize];
    assert r[ysize] == result[1 + i..1 + xsize][0] == X[i] && X[i + 1..] == X[i..][1..];
    assert r[..ysize] == result[p..p + ysize];
    var q := Digit(ysize, result, p, y, yo, ws, 0);
    ghost var r' := result[p..p + ysize + 1];
    DividedNext(X, i, Y, Q, r, q, r');
    result[p] := q;
    assert result[..p + 1] == Q + [q] && result[p + 1..p + 1 + ysize] == r'[1..];
    FrameWindows(old(result[..]), result[..], 0, xsize + 1);
  }

  /** Takes the divisor once off the top of the dividend, if it is not larger. */
  method SubtractTop(n: nat, r: array<mpw>, ro: nat, y: array<mpw>, yo: nat, ge: bool)
    requires ro + n <= r.Length && yo + n <= y.Length && r != y
    requires ge <==> Val(r[ro..ro + n]) >= Val(y[yo..yo + n])
    modifies r
    ensures Val(r[ro..ro + n]) == old(Val(r[ro..ro + n])) - if ge then old(Val(y[yo..yo + n])) else 0
    ensures Framed(r, ro, ro + n)
  {
    hide Val, P;
    ghost var v: int := Val(r[ro..ro + n]) - Val(y[yo..yo + n]);
    if ge {
      ghost var carry := MpSub(n, r, ro, y, yo);
      NoBorrowAtAll(r[ro..ro + n], v, carry);
    }
  }

  /** The part of mpndivmod that comes before the loop. */
  method StartDivision(result: array<mpw>, xsize: nat, x: array<mpw>, ysize: nat, y: array<mpw>, yo: nat)
    requires 0 < ysize <= xsize
    requires result.Length > xsize && x.Length >= xsize && y.Length >= yo + ysize
    requires result != x && result != y && y[yo] >= W / 2
    modifies result
    ensures old(Val(y[yo..yo + ysize])) > 0
    ensures Divided(old(x[..xsize]), ysize, ysize, old(Val(y[yo..yo + ysize])), result[..1], result[1..1 + ysize])
    ensures result[1 + ysize..1 + xsize] == old(x[..xsize])[ysize..]
    ensures result[0] == if old(Val(x[..xsize][..ysize])) >= old(Val(y[yo..yo + ysize])) then 1 else 0
    ensures Framed(result, 0, xsize + 1)
  {
    hide Val, P, Divided;
    ghost var X, Y := x[..xsize], y[yo..yo + ysize];
    LeadingPositive(Y);
    ghost var top, low := X[..ysize], X[ysize..];
    var ge := MpGe(ysize, x, 0, y, yo);
    assert top == x[0..0 + ysize];
    result[0] := if ge then 1 else 0;
    MpCopy(xsize, result, 1, x, 0);
    Windows(result, 1, 1 + ysize, 1 + xsize);
    SubtractTop(ysize, result, 1, y, yo, ge);
    FirstDivided(X, Y, result[0], result[1..1 + ysize]);
    assert result[..1] == [result[0]];
    FrameWindows(old(result[..]), result[..], 0, xsize + 1);
  }

  lemma EndDivided(x: seq<mpw>, n: nat, v: int, Q: seq<mpw>, R: seq<mpw>)
    requires 0 < n && 0 < v && Divided(x, |x|, n, v, Q, R)
    ensures Val(Q) == Quo(Val(x), v) <==> NoEqualWords(x, |x|, n, v)
    ensures NoEqualWords(x, |x|, n, v) ==> Val(R) == Rem(Val(x), v)
  {
    assert x[..|x|] == x;
  }

  // ----- remainders

  /** v is y, shifted left until the top bit is set. */
  ghost predicate TopShifted(y: seq<mpw>, v: int) {
    0 < v < P(|y|) <= 2 * v && exists z: nat :: v == Val(y) * P2(z)
  }

  /** The condition on a division whose divisor is first shifted so that its top bit is set. */
  ghost predicate ExactModulo(x: seq<mpw>, y: seq<mpw>) {
    0 < |y| <= |x| && forall v: nat :: TopShifted(y, v) ==> NoEqualWords(x, |x|, |y|, v)
  }

  /** The remainder of x by y, in as many words as x has, exactly when no equal leading words are met. */
  method MpMod(result: array<mpw>, ro: nat, xsize: nat, x: array<mpw>, xo: nat, ysize: nat, y: array<mpw>, yo: nat,
               ws: array<mpw>)
    requires 0 < ysize <= xsize
    requires ro + xsize <= result.Length && xo + xsize <= x.Length && yo + ysize <= y.Length
    requires Val(y[yo..yo + ysize]) > 0
    requires 2 * ysize + 1 <= ws.Length
    requires Apart(result, ro, xsize, x, xo, xsize) && result != y && result != ws && ws != x && ws != y
    modifies result, ws
    ensures Val(result[ro..ro + xsize]) == Rem(old(Val(x[xo..xo + xsize])), old(Val(y[yo..yo + ysize]))) <==>
            ExactModulo(old(x[xo..xo + xsize]), old(y[yo..yo + ysize]))
    ensures !ExactModulo(old(x[xo..xo + xsize]), old(y[yo..yo + ysize])) ==> Val(result[ro..ro + xsize]) >= P(ysize)
    ensures Framed(result, ro, ro + xsize)
  {
    hide Val, P, P2, NoEqualWords, Divided, ExactModulo, Rem;
    ghost var X, Y, n, m := x[xo..xo + xsize], y[yo..yo + ysize], ysize + 1, ro + (xsize - ysize);
    var shift := StartModulo(result, ro, xsize, x, xo, ysize, y, yo, ws);
    ghost var N := ws[n..n + ysize];
    RemainderDigits(result, ro, xsize, ysize, ws, X, N);
    ghost var high, R := result[ro..m], result[m..m + ysize];
    Denormalize(result, ro + (xsize - ysize), ysize, ws, shift, Val(Y));
    assert result[ro..m] == high && m + ysize == ro + xsize;
    Windows(result, ro, m, ro + xsize);
    FinalRemainder(X, Y, N, shift, high, R, result[m..m + ysize], result[ro..ro + xsize]);
  }

  /** Normalizes a copy of the divisor and copies the dividend. */
  method StartModulo(result: array<mpw>, ro: nat, xsize: nat, x: array<mpw>, xo: nat, ysize: nat, y: array<mpw>,
                     yo: nat, ws: array<mpw>)
      returns (shift: nat)
    requires 0 < ysize <= xsize
    requires ro + xsize <= result.Length && xo + xsize <= x.Length && yo + ysize <= y.Length
    requires Val(y[yo..yo + ysize]) > 0
    requires 2 * ysize + 1 <= ws.Length
    requires Apart(result, ro, xsize, x, xo, xsize) && result != y && result != ws && ws != x && ws != y
    modifies result, ws
    ensures result[ro..ro + xsize] == old(x[xo..xo + xsize])
    ensures var N := ws[ysize + 1..ysize + 1 + ysize];
            Val(N) == old(Val(y[yo..yo + ysize])) * P2(shift) && N[0] >= W / 2 && Val(N) > 0
    ensures Framed(result, ro, ro + xsize)
  {
    hide Val, P, P2, LeadingZeros;
    ghost var X := x[xo..xo + xsize];
    MpCopy(ysize, ws, ysize + 1, y, yo);
    shift := MpNorm(ysize, ws, ysize + 1);
    ghost var N := ws[ysize + 1..ysize + 1 + ysize];
    LeadingPositive(N);
    assert x[xo..xo + xsize] == X;
    MpCopy(xsize, result, ro, x, xo);
    assert ws[ysize + 1..ysize + 1 + ysize] == N;
  }

  lemma FinalRemainder(X: seq<mpw>, Y: seq<mpw>, N: seq<mpw>, shift: nat, high: seq<mpw>, R: seq<mpw>,
                       R': seq<mpw>, Z: seq<mpw>)
    requires 0 < |Y| == |N| == |R'| <= |X| && Val(Y) > 0 && Val(N) == Val(Y) * P2(shift) && N[0] >= W / 2 && Val(N) > 0
    requires NoEqualWords(X, |X|, |Y|, Val(N)) ==> Val(R) == Rem(Val(X), Val(N))
    requires NoEqualWords(X, |X|, |Y|, Val(N)) <==> forall j :: 0 <= j < |high| ==> high[j] == 0
    requires Val(R) < Val(N) ==> Val(R') == Rem(Val(R), Val(Y))
    requires Z == high + R'
    ensures Val(Z) == Rem(Val(X), Val(Y)) <==> ExactModulo(X, Y)
    ensures !ExactModulo(X, Y) ==> Val(Z) >= P(|Y|)
  {
    hide Val, P, P2, NoEqualWords, Rem, ExactModulo;
    ExactForShifted(X, Y, N, shift);
    if ExactModulo(X, Y) {
      ModOfMod(Val(X), Val(Y), Val(N), P2(shift), Val(R));
      ZerosInFront(high, R');
    } else {
      RemBounds(Val(X), Val(Y));
      ValBound(Y);
      LargeInFront(high, R');
    }
  }

  /** There is but one way to shift the divisor to the top. */
  lemma ExactForShifted(X: seq<mpw>, Y: seq<mpw>, N: seq<mpw>, shift: nat)
    requires 0 < |Y| == |N| <= |X| && Val(Y) > 0 && Val(N) == Val(Y) * P2(shift) && N[0] >= W / 2 && Val(N) > 0
    ensures ExactModulo(X, Y) <==> NoEqualWords(X, |X|, |Y|, Val(N))
  {
    hide Val, P, P2, NoEqualWords;
    TopHalf(N);
    ValBound(N);
    assert TopShifted(Y, Val(N));
    forall v: nat | TopShifted(Y, v)
      ensures v == Val(N)
    {
      var z: nat :| v == Val(Y) * P2(z);
      TopShiftUnique(Val(Y), z, shift, P(|Y|));
    }
  }

  /** There is but one way to shift a number to the top. */
  lemma TopShiftUnique(m: int, y: nat, z: nat, p: int)
    requires 0 < m * P2(y) < p <= 2 * (m * P2(y)) && 0 < m
    requires 0 < m * P2(z) < p <= 2 * (m * P2(z))
    ensures y == z
  {
    hide P2;
    if y < z {
      P2Mono(y, z);
      MulMono(2 * P2(y), P2(z), m);
    }
    if z < y {
      P2Mono(z, y);
      MulMono(2 * P2(z), P2(y), m);
    }
  }

  lemma LargeInFront(high: seq<mpw>, s: seq<mpw>)
    requires !forall j :: 0 <= j < |high| ==> high[j] == 0
    ensures Val(high + s) >= P(|s|)
  {
    hide Val, P;
    ValZero(high);
    ValConcat(high, s);
    MulMono(1, Val(high), P(|s|));
  }

  lemma ZerosInFront(high: seq<mpw>, s: seq<mpw>)
    requires forall j :: 0 <= j < |high| ==> high[j] == 0
    ensures Val(high + s) == Val(s)
  {
    hide Val, P;
    ValZero(high);
    ValConcat(high, s);
  }

  /** The loop of mpmod: the same digits as in mpndivmod, but only the remainder is kept. */
  method RemainderDigits(result: array<mpw>, ro: nat, xsize: nat, ysize: nat, ws: array<mpw>, ghost X: seq<mpw>,
                         ghost Y: seq<mpw>)
    requires 0 < ysize <= xsize && ro + xsize <= result.Length && 2 * ysize + 1 <= ws.Length
    requires result != ws && result[ro..ro + xsize] == X
    requires ws[ysize + 1..ysize + 1 + ysize] == Y && Y[0] >= W / 2 && Val(Y) > 0
    modifies result, ws
    ensures ws[ysize + 1..ysize + 1 + ysize] == Y
    ensures var m := ro + (xsize - ysize);
            && (NoEqualWords(X, xsize, ysize, Val(Y)) ==> Val(result[m..m + ysize]) == Rem(Val(X), Val(Y)))
            && (NoEqualWords(X, xsize, ysize, Val(Y)) <==> forall j :: ro <= j < m ==> result[j] == 0)
    ensures Framed(result, ro, ro + xsize) && Framed(ws, 0, ysize + 1)
  {
    hide Val, P, DigitOf, Divided, NoEqualWords, Quo, Rem;
    ghost var Q := ReduceTop(result, ro, xsize, ysize, ws, X, Y);
    var i, p := ysize, ro;
    NothingMet(X, ysize, Val(Y));
    while i < xsize
      invariant ysize <= i <= xsize && p == ro + (i - ysize)
      invariant result[ro + i..ro + xsize] == X[i..]
      invariant ws[ysize + 1..ysize + 1 + ysize] == Y
      invariant Divided(X, i, ysize, Val(Y), Q, result[p..p + ysize])
      invariant NoEqualWords(X, i, ysize, Val(Y)) <==> forall j :: ro <= j < p ==> result[j] == 0
      invariant Kept(result, ro, ro + xsize) && Framed(ws, 0, ysize + 1)
    {
      Q := RemainderWord(result, ro, xsize, i, p, X, Y, Q, ysize, ws);
      i, p := i + 1, p + 1;
    }
    EndDivided(X, ysize, Val(Y), Q, result[p..p + ysize]);
    FrameWindows(old(result[..]), result[..], ro, ro + xsize);
  }

  lemma NothingMet(x: seq<mpw>, n: nat, v: int)
    requires 0 < n <= |x| && 0 < v
    ensures NoEqualWords(x, n, n, v)
  {
  }

  /** The body of the loop of mpmod. */
  method RemainderWord(result: array<mpw>, ghost ro: nat, ghost xsize: nat, ghost i: nat, p: nat,
                       ghost X: seq<mpw>, ghost Y: seq<mpw>, ghost Q: seq<mpw>, ysize: nat, ws: array<mpw>)
      returns (ghost Q': seq<mpw>)
    requires 0 < ysize <= i < xsize == |X| && p == ro + (i - ysize)
    requires ro + xsize <= result.Length && 2 * ysize + 1 <= ws.Length && result != ws
    requires ws[ysize + 1..ysize + 1 + ysize] == Y && Y[0] >= W / 2 && Val(Y) > 0
    requires result[ro + i..ro + xsize] == X[i..]
    requires Divided(X, i, ysize, Val(Y), Q, result[p..p + ysize])
    modifies result, ws
    ensures result[ro + i + 1..ro + xsize] == X[i + 1..]
    ensures ws[ysize + 1..ysize + 1 + ysize] == Y
    ensures Divided(X, i + 1, ysize, Val(Y), Q', result[p + 1..p + 1 + ysize])
    ensures NoEqualWords(X, i + 1, ysize, Val(Y)) <==> NoEqualWords(X, i, ysize, Val(Y)) && result[p] == 0
    ensures Framed(result, p, p + ysize + 1) && Framed(ws, 0, ysize + 1)
  {
    hide Val, P, DigitOf, Divided, NoEqualWords, Quo, Rem;
    ghost var r := result[p..p + ysize + 1];
    assert r[ysize] == result[ro + i..ro + xsize][0] == X[i] && X[i + 1..] == X[i..][1..];
    assert r[..ysize] == result[p..p + ysize];
    assert result[ro + i + 1..ro + xsize] == X[i + 1..];
    ghost var q := Digit(ysize, result, p, ws, ysize + 1, ws, 0);
    ghost var r' := result[p..p + ysize + 1];
    DividedNext(X, i, Y, Q, r, q, r');
    assert result[ro + i + 1..ro + xsize] == X[i + 1..];
    assert ws[ysize + 1..ysize + 1 + ysize] == old(ws[ysize + 1..ysize + 1 + ysize]);
    assert result[p + 1..p + 1 + ysize] == r'[1..] && r'[0] == result[p];
    Q' := Q + [q];
  }

  /** The part of mpmod between copying the dividend and the loop. */
  method ReduceTop(result: array<mpw>, ro: nat, xsize: nat, ysize: nat, ws: array<mpw>, ghost X: seq<mpw>,
                   ghost Y: seq<mpw>)
      returns (ghost Q: seq<mpw>)
    requires 0 < ysize <= xsize && ro + xsize <= result.Length && 2 * ysize + 1 <= ws.Length
    requires result != ws && result[ro..ro + xsize] == X
    requires ws[ysize + 1..ysize + 1 + ysize] == Y && Y[0] >= W / 2 && Val(Y) > 0
    modifies result
    ensures Divided(X, ysize, ysize, Val(Y), Q, result[ro..ro + ysize])
    ensures result[ro + ysize..ro + xsize] == X[ysize..]
    ensures Framed(result, ro, ro + xsize)
  {
    hide Val, P, Divided;
    Windows(result, ro, ro + ysize, ro + xsize);
    var ge := MpGe(ysize, result, ro, ws, ysize + 1);
    SubtractTop(ysize, result, ro, ws, ysize + 1, ge);
    Q := [if ge then 1 else 0];
    FirstDivided(X, Y, Q[0], result[ro..ro + ysize]);
  }

  /** Takes the remainder by y * 2^shift to the remainder by y, halving the divisor step by step. */
  method Denormalize(r: array<mpw>, ro: nat, n: nat, ws: array<mpw>, shift: nat, ghost y: int)
    requires ro + n <= r.Length && 2 * n + 1 <= ws.Length && r != ws
    requires 0 < y && Val(ws[n + 1..n + 1 + n]) == y * P2(shift)
    modifies r, ws
    ensures old(Val(r[ro..ro + n]) < Val(ws[n + 1..n + 1 + n])) ==>
            Val(r[ro..ro + n]) == Rem(old(Val(r[ro..ro + n])), y)
    ensures Framed(r, ro, ro + n)
  {
    hide Val, P, P2, Rem;
    ghost var R := Val(r[ro..ro + n]);
    ghost var proper := R < Val(ws[n + 1..n + 1 + n]);
    var s := shift;
    while s > 0
      invariant 0 <= s <= shift
      invariant Val(ws[n + 1..n + 1 + n]) == y * P2(s)
      invariant proper ==> Val(r[ro..ro + n]) < y * P2(s) && Rem(Val(r[ro..ro + n]), y) == Rem(R, y)
      invariant Kept(r, ro, ro + n)
    {
      s := s - 1;
      P2Succ(s);
      assert y * (2 * P2(s)) == 2 * (y * P2(s));
      ghost var before := r[ro..ro + n];
      MpDivTwo(n, ws, n + 1);
      assert r[ro..ro + n] == before;
      var ge := MpGe(n, r, ro, ws, n + 1);
      if ge {
        ghost var carry := MpSub(n, r, ro, ws, n + 1);
        NoBorrowAtAll(r[ro..ro + n], Val(before) - y * P2(s), carry);
        ModWithout(Val(before), y, P2(s));
      }
    }
    P2Succ(0);
    if proper {
      RemSmall(Val(r[ro..ro + n]), y);
    }
    FrameWindows(old(r[..]), r[..], ro, ro + n);
  }

  lemma ModWithout(a: int, y: int, k: int)
    requires 0 < y
    ensures Rem(a - y * k, y) == Rem(a, y)
  {
    DivMod(a, y);
    assert (a / y - k) * y == a / y * y - y * k;
    DivModUnique(a - y * k, y, a / y - k, a % y);
  }

  lemma ModOfMod(x: int, y: int, v: int, k: int, r: int)
    requires 0 < y && 0 < v && v == y * k && r == Rem(x, v)
    ensures 0 <= r < v && Rem(r, y) == Rem(x, y)
  {
    DivMod(x, v);
    assert x / v * v == y * (x / v * k);
    ModWithout(x, y, x / v * k);
  }

  /** A division that meets the case it does not handle: W^3 / 2 by W^2 / 2 + 1. */
  lemma UnhandledDivision()
    ensures Val([W / 2, 1]) == W * (W / 2) + 1
    ensures Val([W / 2, 0, 0]) == W * W * (W / 2)
    ensures !NoEqualWords([W / 2, 0, 0], 3, 2, W * (W / 2) + 1)
  {
    var x: seq<mpw> := [W / 2, 0, 0];
    ValTwo(W / 2, 1);
    ValTwo(W / 2, 0);
    assert x[..2] == [W / 2, 0];
    ValSnoc(x);
    var v := W * (W / 2) + 1;
    DivModUnique(W * (W / 2), v, 0, W * (W / 2));
    PSucc(0);
    DivModUnique(W * (W / 2), W, W / 2, 0);
    DivModUnique(v, W, W / 2, 1);
    assert EqualWordsAt(x, 2, 2, v);
  }

  lemma ValTwo(a: mpw, b: mpw)
    ensures Val([a, b]) == a * W + b
  {
    ValSnoc([a, b]);
    assert [a, b][..1] == [a];
    ValOne([a]);
  }
}
