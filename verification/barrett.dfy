/**
  Barrett reduction (mpbarrett.c): a modulus kept together with the constant
  mu = W^(2 size) / modulus, so that reducing needs no division.
 */
module Barrett {
  import opened Arith
  import opened Words
  import opened MpCompare
  import opened MpAddSub
  import opened MpMultiply
  import opened MpShift
  import opened MpDivide

  /** size words of the modulus, followed by size + 1 words of mu. */
  class MpBarrett {
    var size: nat
    var modl: array<mpw>

    constructor (size: nat)
      requires 0 < size
      ensures this.size == size && Sized() && fresh(modl)
    {
      this.size := size;
      modl := new mpw[2 * size + 1];
    }

    ghost predicate Sized()
      reads this
    {
      0 < size && modl.Length == 2 * size + 1
    }

    ghost function Modulus(): nat
      reads this, modl
      requires Sized()
    {
      Val(modl[0..size])
    }

    ghost function Mu(): nat
      reads this, modl
      requires Sized()
    {
      Val(modl[size..size + (size + 1)])
    }

    /** The modulus has a non-zero leading word and is no power of W; a size is a machine word. */
    ghost predicate Usable()
      reads this, modl
    {
      Sized() && size < W && P(size - 1) < Modulus()
    }

    ghost predicate Valid()
      reads this, modl
    {
      Usable() && Mu() == P(2 * size) / Modulus()
    }
  }

  // ----- the quotient estimate

  /** The products of the low words of q with mu, where a word at place i meets only the i + 2
      leading words of mu. The words of q end at index k. */
  function Skipped(q: seq<mpw>, mu: seq<mpw>, j: nat): (s: nat)
    requires j < |q| && |mu| == |q|
  {
    if j == 0 then 0
    else Skipped(q, mu, j - 1) + Val(mu[..j + 1]) * q[|q| - j]
  }

  /** What all the skipped partial products amount to. */
  lemma {:induction false} SkippedError(q: seq<mpw>, mu: seq<mpw>, j: nat, p: int)
    requires j < |q| && |mu| == |q| && |q| >= 2 && p == P(|q| - 2)
    ensures Skipped(q, mu, j) * p <= Val(q[|q| - j..]) * Val(mu) <= Skipped(q, mu, j) * p + j * ((W - 1) * p)
  {
    hide Val, P;
    if j == 0 {
      ValEmpty(q[|q|..]);
    } else {
      var i, w: int := j - 1, q[|q| - j];
      SkippedError(q, mu, i, p);
      var m: int := Val(mu);
      var hi: int, lo: int, a, b := Val(mu[..j + 1]), Val(mu[j + 1..]), P(|q| - j - 1), P(i);
      ValSplit(mu, j + 1);
      ValBound(mu[j + 1..]);
      PAdd(i, |q| - j - 1);
      ValCons(q[|q| - j..]);
      assert q[|q| - j..][1..] == q[|q| - i..];
      SkippedTerm(w, hi, lo, a, b, p, m);
      MulSum(w * b, Val(q[|q| - i..]), m);
      MulSum(Skipped(q, mu, i), hi * w, p);
      assert j * ((W - 1) * p) == i * ((W - 1) * p) + (W - 1) * p;
    }
  }

  lemma SkippedTerm(w: int, hi: int, lo: int, a: int, b: int, p: int, m: int)
    requires 0 <= w < W && 0 <= lo < a && 0 < b && b * a == p && m == hi * a + lo
    ensures (hi * w) * p <= (w * b) * m <= (hi * w) * p + (W - 1) * p
  {
    calc {
      (w * b) * m;
      (w * b) * (hi * a) + (w * b) * lo;
      { assert (w * b) * (hi * a) == (hi * w) * (b * a); }
      (hi * w) * p + (w * b) * lo;
    }
    MulBound(w, b * lo, W - 1, p) by {
      MulBound(b, lo, b, a);
    }
    MulAssoc(w, b, lo);
  }

  /** All the products that mpbmod_w adds up, in units of W^(k - 1). */
  function Estimated(q: seq<mpw>, mu: seq<mpw>): (s: nat)
    requires |q| >= 2 && |mu| == |q|
  {
    Skipped(q, mu, |q| - 1) + Val(mu) * q[0] * W
  }

  lemma EstimatedError(q: seq<mpw>, mu: seq<mpw>, p: int)
    requires |mu| == |q| && 2 <= |q| <= W && p == P(|q| - 2)
    ensures Estimated(q, mu) * p <= Val(q) * Val(mu) < Estimated(q, mu) * p + W * W * p
  {
    hide Val, P, Skipped;
    var k := |q| - 1;
    SkippedError(q, mu, k, p);
    ValCons(q);
    assert q[|q| - k..] == q[1..];
    PSucc(k - 1);
    LastTerm(Val(mu), q[0], p, Val(q[1..]), Skipped(q, mu, k), k);
  }

  lemma LastTerm(m: int, w: int, p: int, v: int, s: int, k: int)
    requires 0 < p && 0 <= k < W
    requires s * p <= v * m <= s * p + k * ((W - 1) * p)
    ensures (s + m * w * W) * p <= (w * (W * p) + v) * m < (s + m * w * W) * p + W * W * p
  {
    MulSum(w * (W * p), v, m);
    MulSum(s, m * w * W, p);
    assert (w * (W * p)) * m == (m * w * W) * p;
    var e := (W - 1) * p;
    MulMono(k, W, e);
  }

  /** The quotient estimate is never high and low by at most three. */
  lemma QuotientEstimate(x: int, m: int, mu: int, q1: int, s: int, a: int, b: int, n: int)
    requires 0 < a < m && a * (W * W) == b && n == a * b && 0 <= x < n
    requires mu == n / m && q1 == x / a
    requires s * a <= q1 * mu < s * a + b && 0 <= s
    ensures 0 <= x - s / (W * W) * m < 4 * m
  {
    var q3, r3 := s / (W * W), s % (W * W);
    DivMod(n, m);
    DivMod(x, a);
    var r1, r2 := x % a, n % m;
    NotAbove(x, m, mu, q1, q3, r3, s, a, b, n, r1, r2);
    NotFarBelow(x, m, mu, q1, q3, r3, s, a, b, n, r1, r2);
  }

  lemma NotAbove(x: int, m: int, mu: int, q1: int, q3: int, r3: int, s: int, a: int, b: int, n: int, r1: int, r2: int)
    requires 0 < a && 0 < m && a * (W * W) == b && n == a * b && 0 < b && 0 <= q1 && 0 <= mu
    requires s == q3 * (W * W) + r3 && 0 <= r3
    requires x == q1 * a + r1 && 0 <= r1 && n == mu * m + r2 && 0 <= r2
    requires s * a <= q1 * mu
    ensures q3 * m <= x
  {
    var am, qa, qm, mm := a * m, q1 * a, q3 * m, mu * m;
    ScaledSum(s, q3, r3, a, b);
    MulMono(0, r3, a);
    MulPos(a, m);
    MulPos(a, b);
    MulMono(0, a, q1);
    assert a * q1 == qa;
    // q3 * b <= q1 * mu, and times a * m this is qm * n <= qa * mm <= x * n
    MulMono(q3 * b, q1 * mu, am);
    Regroup(q3, b, a, m, n);
    Interchange(q1, mu, a, m);
    MulMono(mm, n, qa);
    assert mm * qa == qa * mm && n * qa == qa * n;
    MulMono(qa, x, n);
    CancelLess(qm, x, n);
  }

  lemma NotFarBelow(x: int, m: int, mu: int, q1: int, q3: int, r3: int, s: int, a: int, b: int, n: int, r1: int,
                    r2: int)
    requires 0 < a < m && a * (W * W) == b && n == a * b && 0 < b && 0 <= x < n && 0 <= q1
    requires s == q3 * (W * W) + r3 && r3 < W * W
    requires x == q1 * a + r1 && 0 <= r1 < a && n == mu * m + r2 && 0 <= r2 < m
    requires q1 * mu < s * a + b
    ensures x - q3 * m < 4 * m
  {
    ScaledSum(s, q3, r3, a, b);
    MulStep(r3, W * W, a);
    assert W * W * a == b;
    EstimateAbove(q1, mu, q3, a, b, m, n);
    ExactBelow(x, q1, mu, a, m, n, r1, r2);
    var qm, mn := q3 * m, m * n;
    MulSum(qm, 4 * m, n);
    assert (4 * m) * n == 4 * mn;
    CancelStrict(x, qm + 4 * m, n);
  }

  lemma EstimateAbove(q1: int, mu: int, q3: int, a: int, b: int, m: int, n: int)
    requires 0 < a && 0 < m && n == a * b && q1 * mu < q3 * b + 2 * b
    ensures (q1 * a) * (mu * m) < (q3 * m) * n + 2 * (m * n)
  {
    var q := q3 + 2;
    MulSum(q3, 2, b);
    MulPos(a, m);
    MulStep(q1 * mu, q * b, a * m);
    Regroup(q, b, a, m, n);
    Interchange(q1, mu, a, m);
    MulSum(q3, 2, m);
    MulSum(q3 * m, 2 * m, n);
    MulAssoc(2, m, n);
  }

  lemma ExactBelow(x: int, q1: int, mu: int, a: int, m: int, n: int, r1: int, r2: int)
    requires 0 < a < m && 0 <= x < n && 0 <= q1
    requires x == q1 * a + r1 && 0 <= r1 < a && n == mu * m + r2 && 0 <= r2 < m
    ensures x * n <= (q1 * a) * (mu * m) + 2 * (m * n)
  {
    var qa, mm := q1 * a, mu * m;
    MulSum(qa, r1, n);
    MulMono(r1, m, n);
    MulMono(0, q1, a);
    MulBound(qa, r2, n, m);
    assert n * m == m * n;
    MulSum(mm, r2, qa);
    assert mm * qa == qa * mm && r2 * qa == qa * r2 && n * qa == qa * n;
  }

  lemma ScaledSum(s: int, q: int, r: int, a: int, b: int)
    requires s == q * (W * W) + r && a * (W * W) == b
    ensures s * a == q * b + r * a
  {
    MulSum(q * (W * W), r, a);
    MulAssoc(q, W * W, a);
  }

  lemma Regroup(q: int, b: int, a: int, m: int, n: int)
    requires n == a * b
    ensures (q * b) * (a * m) == (q * m) * n
  {
    calc {
      (q * b) * (a * m);
      q * (b * (a * m));
      q * (m * (a * b));
      (q * m) * n;
    }
  }

  lemma Interchange(q: int, mu: int, a: int, m: int)
    ensures (q * mu) * (a * m) == (q * a) * (mu * m)
  {
    calc {
      (q * mu) * (a * m);
      q * (mu * (a * m));
      q * (a * (mu * m));
      (q * a) * (mu * m);
    }
  }

  lemma CancelLess(a: int, b: int, n: int)
    requires 0 < n && a * n <= b * n
    ensures a <= b
  {
    if a > b {
      MulStep(b, a, n);
    }
  }

  lemma CancelStrict(a: int, b: int, n: int)
    requires 0 < n && a * n < b * n
    ensures a < b
  {
    if a >= b {
      MulMono(b, a, n);
    }
  }

  // ----- reduction

  lemma NoProducts(q: seq<mpw>, mu: seq<mpw>)
    requires |q| >= 2 && |mu| == |q|
    ensures Skipped(q, mu, 1) == Val(mu[..2]) * q[|q| - 1]
  {
    hide Val;
    assert Skipped(q, mu, 0) == 0;
  }

  /** The first half of mpbmod_w: partial products of words of the number with leading words of
      mu, into the first size + 3 words of the workspace. */
  method EstimateQuotient(b: MpBarrett, data: array<mpw>, o: nat, wksp: array<mpw>)
    requires b.Sized() && wksp.Length >= 2 * b.size + 2 && o + 2 * b.size <= data.Length
    requires wksp != data && wksp != b.modl
    modifies wksp
    ensures var k := b.size;
            Val(wksp[0..k + 3]) == Estimated(data[o..o + (k + 1)], b.modl[k..k + (k + 1)])
  {
    hide Val, P, Skipped;
    var size, modl: array<mpw> := b.size, b.modl;
    ghost var q, mu, end := data[o..o + (size + 1)], modl[size..size + (size + 1)], size + 3;
    var sp, src, dst := 2, o + size, size;
    assert mu[..2] == modl[size..size + 2];
    SetRow(2, wksp, size + 1, modl, size, data[src]);
    NoProducts(q, mu);
    while sp <= size
      invariant 2 <= sp <= size + 1
      invariant src == o + size + 2 - sp && dst == size + 2 - sp
      invariant q == data[o..o + (size + 1)] && mu == modl[size..size + (size + 1)]
      invariant Val(wksp[dst..end]) == Skipped(q, mu, sp - 1)
    {
      sp, src := sp + 1, src - 1;
      AddWordProduct(wksp, dst, sp, end, modl, size, data[src]);
      dst := dst - 1;
      assert mu[..sp] == modl[size..size + sp] && q[|q| - (sp - 1)] == data[src];
      SkippedNext(q, mu, sp - 1);
    }
    AddWordProduct(wksp, 1, size + 1, end, modl, size, data[src - 1]);
    assert q[0] == data[src - 1];
  }

  lemma SkippedNext(q: seq<mpw>, mu: seq<mpw>, j: nat)
    requires 0 < j < |q| && |mu| == |q|
    ensures Skipped(q, mu, j) == Skipped(q, mu, j - 1) + Val(mu[..j + 1]) * q[|q| - j]
  {
    hide Val;
  }

  /** One row, which is skipped for a zero word. */
  method AddWordProduct(wksp: array<mpw>, dst: nat, sp: nat, ghost end: nat, modl: array<mpw>, o: nat, w: mpw)
    requires 0 < dst && dst + sp <= end <= wksp.Length && o + sp <= modl.Length && wksp != modl
    modifies wksp
    ensures dst + sp == end ==>
              Val(wksp[dst - 1..end]) == old(Val(wksp[dst..end])) + Val(modl[o..o + sp]) * w
    ensures dst + sp + 1 == end ==>
              Val(wksp[dst - 1..end]) == old(Val(wksp[dst..end])) + Val(modl[o..o + sp]) * w * W
  {
    hide Val, P;
    PSucc(0);
    if w != 0 {
      AddRow(sp, wksp, dst, end, modl, o, w);
    } else {
      ghost var low := wksp[dst..end];
      wksp[dst - 1] := 0;
      assert wksp[dst - 1..end] == [0] + low;
      ValZeroCons(low);
    }
  }

  /** v is m * u but for a multiple of p. */
  ghost predicate LowPart(v: int, c: int, p: int, m: int, u: int) {
    v + c * p == m * u
  }

  lemma LowStep(M: seq<mpw>, Q: seq<mpw>, d: nat, L: seq<mpw>, L': seq<mpw>, carry: mpw, c: int) returns (c': int)
    requires 0 < d <= |M| && |Q| == |L| == |L'| == |M| + 1
    requires var sp := |M| + 1 - d;
             L'[sp..] == L[sp..] &&
             Val(L'[..sp]) + carry * P(sp) == Val(L[..sp]) + Val(M[d - 1..]) * Q[|M| - d]
    requires LowPart(Val(L), c, P(|L|), Val(M), Val(Q[|M| + 1 - d..]))
    ensures LowPart(Val(L'), c', P(|L|), Val(M), Val(Q[|M| - d..]))
  {
    hide Val, P;
    var k, sp, w: int := |M|, |M| + 1 - d, Q[|M| - d];
    ValSplit(L, sp);
    ValSplit(L', sp);
    ValSplit(M, d - 1);
    ValCons(Q[k - d..]);
    assert Q[k - d..][1..] == Q[k + 1 - d..];
    PAdd(sp, d);
    c' := c + carry as int + Val(M[..d - 1]) * w;
    LowArithmetic(Val(L[..sp]), Val(L'[..sp]), Val(L[sp..]), carry, P(sp), P(d), P(|L|),
                  Val(M[..d - 1]), Val(M[d - 1..]), Val(M), w, Val(Q[k + 1 - d..]), c, c');
  }

  lemma LowArithmetic(l: int, l': int, low: int, carry: int, e: int, f: int, p: int,
                      mh: int, ml: int, m: int, w: int, u: int, c: int, c': int)
    requires e * f == p && m == mh * e + ml
    requires l' + carry * e == l + ml * w
    requires (l * f + low) + c * p == m * u
    requires c' == c + carry + mh * w
    ensures (l' * f + low) + c' * p == m * (w * f + u)
  {
    LowSide(l, l', carry, e, f, p, ml * w);
    assert c' * p == c * p + carry * p + (mh * w) * p by {
      MulSum(c + carry, mh * w, p);
      MulSum(c, carry, p);
    }
    HighSide(e, f, p, mh, ml, m, w, u);
  }

  lemma LowSide(l: int, l': int, carry: int, e: int, f: int, p: int, mw: int)
    requires e * f == p && l' + carry * e == l + mw
    ensures l' * f + carry * p == l * f + mw * f
  {
    MulSum(l', carry * e, f);
    MulAssoc(carry, e, f);
    MulSum(l, mw, f);
  }

  lemma HighSide(e: int, f: int, p: int, mh: int, ml: int, m: int, w: int, u: int)
    requires e * f == p && m == mh * e + ml
    ensures m * (w * f + u) == (mh * w) * p + (ml * w) * f + m * u
  {
    MulSum(w * f, u, m);
    MulSum(mh * e, ml, w * f);
    MulAssoc(ml, w, f);
    calc {
      (mh * e) * (w * f);
      == { MulAssoc(mh, e, w * f); }
      mh * (e * (w * f));
      == { assert e * (w * f) == w * (e * f); }
      mh * (w * p);
      == { MulAssoc(mh, w, p); }
      (mh * w) * p;
    }
  }

  /** The second half of mpbmod_w: the estimated quotient times the modulus, of which only the
      size + 1 low words are formed. */
  method LowProduct(b: MpBarrett, wksp: array<mpw>) returns (ghost c: int)
    requires b.Sized() && wksp.Length >= 2 * b.size + 2 && wksp != b.modl
    modifies wksp
    ensures var k := b.size;
            LowPart(Val(wksp[k + 1..2 * k + 2]), c, P(k + 1), b.Modulus(), old(Val(wksp[0..k + 1])))
    ensures Framed(wksp, b.size + 1, 2 * b.size + 2)
  {
    hide Val, P, LowPart;
    var size, modl: array<mpw> := b.size, b.modl;
    ghost var Q, M := wksp[0..size + 1], modl[0..size];
    SetRow(size, wksp, size + 2, modl, 0, wksp[size]);
    c := FirstLow(Val(wksp[size + 1..2 * size + 2]), P(size + 1), M, Q);
    var sp, rc, src := size, 0, size;
    while sp > 0
      invariant 0 <= sp <= size && rc == size - sp && src == sp
      invariant Q == wksp[0..size + 1] && M == modl[0..size]
      invariant LowPart(Val(wksp[size + 1..2 * size + 2]), c, P(size + 1), Val(M), Val(Q[sp..]))
      invariant Kept(wksp, size + 1, 2 * size + 2)
    {
      src := src - 1;
      assert M[rc..] == modl[rc..rc + sp] && Q[src] == wksp[src];
      ghost var L := wksp[size + 1..2 * size + 2];
      ghost var carry := AddToTop(wksp, size + 1, 2 * size + 2, sp, modl, rc, wksp[src]);
      c := LowStep(M, Q, rc + 1, L, wksp[size + 1..2 * size + 2], carry, c);
      sp, rc := sp - 1, rc + 1;
    }
    assert Q[0..] == Q;
    FrameWindows(old(wksp[..]), wksp[..], size + 1, 2 * size + 2);
  }

  /** Adds a row to the sp leading words of wksp[lo..hi], and drops the carry. */
  method AddToTop(wksp: array<mpw>, lo: nat, ghost hi: nat, sp: nat, modl: array<mpw>, rc: nat, w: mpw)
      returns (ghost carry: mpw)
    requires lo + sp <= hi <= wksp.Length && rc + sp <= modl.Length && wksp != modl
    modifies wksp
    ensures wksp[lo..hi][sp..] == old(wksp[lo..hi][sp..])
    ensures Val(wksp[lo..hi][..sp]) + carry * P(sp) == old(Val(wksp[lo..hi][..sp])) + Val(modl[rc..rc + sp]) * w
    ensures Framed(wksp, lo, hi)
  {
    hide Val, P;
    ghost var L := wksp[lo..hi];
    assert L[..sp] == wksp[lo..lo + sp] && L[sp..] == wksp[lo + sp..hi];
    carry := MpAddMul(sp, wksp, lo, modl, rc, w);
    ghost var L' := wksp[lo..hi];
    assert L'[..sp] == wksp[lo..lo + sp] && L'[sp..] == wksp[lo + sp..hi];
  }

  lemma FirstLow(v: int, p: int, M: seq<mpw>, Q: seq<mpw>) returns (c: int)
    requires |Q| == |M| + 1 && v == Val(M) * Q[|M|]
    ensures LowPart(v, c, p, Val(M), Val(Q[|M|..]))
  {
    hide Val;
    ValOne(Q[|M|..]);
    c := 0;
  }

  /** Numbers below p that differ by a multiple of p are equal. */
  lemma SameResidue(a: int, b: int, j: int, p: int)
    requires 0 <= a < p && 0 <= b < p && a == b + j * p
    ensures a == b
  {
    if j > 0 {
      MulMono(1, j, p);
    }
    if j < 0 {
      MulMono(j, -1, p);
    }
  }

  /** What the subtraction modulo W^(size + 1) leaves is x - q3 * m. */
  lemma Difference(v: int, x: int, xl: int, h: int, r2: int, c: int, borrow: int, p: int, m: int, q3: int)
    requires 0 <= v < p && 0 <= x - q3 * m < p
    requires x == h * p + xl && LowPart(r2, c, p, m, q3) && v == xl - r2 + borrow * p
    ensures v == x - q3 * m
  {
    assert m * q3 == q3 * m;
    var j := c - h + borrow;
    assert j * p == c * p - h * p + borrow * p;
    SameResidue(v, x - q3 * m, j, p);
  }

  /** Barrett reduction: the remainder of a number of 2 * size words by the modulus. */
  method MpBMod(b: MpBarrett, data: array<mpw>, o: nat, result: array<mpw>, ro: nat, wksp: array<mpw>)
    requires b.Valid() && wksp.Length >= 2 * b.size + 2
    requires o + 2 * b.size <= data.Length && ro + b.size <= result.Length
    requires wksp != data && wksp != result && wksp != b.modl && result != b.modl
    modifies result, wksp
    ensures Val(result[ro..ro + b.size]) == Rem(old(Val(data[o..o + 2 * b.size])), b.Modulus())
    ensures Framed(result, ro, ro + b.size)
    ensures b.Valid()
  {
    hide Val, P, Estimated, LowPart, Rem;
    var size, modl: array<mpw> := b.size, b.modl;
    ghost var k, m, X := size, b.Modulus(), data[o..o + 2 * size];
    EstimateQuotient(b, data, o, wksp);
    ghost var q3 := Val(wksp[0..k + 1]);
    ghost var q, S := data[o..o + (k + 1)], wksp[0..k + 3];
    assert q == X[..k + 1] && S[..k + 1] == wksp[0..k + 1];
    GoodEstimate(b, X, q, S, q3);
    ghost var c := LowProduct(b, wksp);
    SubtractLow(size, data, o, wksp, m, q3, c);
    SubtractModulus(b, wksp, Val(X), q3);
    MpCopy(size, result, ro, wksp, 1);
  }

  /** x - q3 * m, formed modulo W^(size + 1). */
  method SubtractLow(size: nat, data: array<mpw>, o: nat, wksp: array<mpw>, ghost m: nat, ghost q3: nat, ghost c: int)
    requires o + 2 * size <= data.Length && wksp.Length >= 2 * size + 2 && wksp != data
    requires LowPart(Val(wksp[size + 1..2 * size + 2]), c, P(size + 1), m, q3)
    requires 0 <= Val(data[o..o + 2 * size]) - q3 * m < P(size + 1)
    modifies wksp
    ensures Val(wksp[0..size + 1]) == Val(data[o..o + 2 * size]) - q3 * m
  {
    hide Val, P, LowPart;
    ghost var X, p, r2, k := data[o..o + 2 * size], P(size + 1), Val(wksp[size + 1..2 * size + 2]), size + 1;
    MpSetx(size + 1, wksp, 0, 2 * size, data, o);
    assert 0 + (size + 1) == k && k + (size + 1) == 2 * size + 2;
    ghost var xl := Val(wksp[0..k]);
    ghost var borrow := MpSub(size + 1, wksp, 0, wksp, size + 1);
    ghost var h := LowWords(X, k, xl);
    ValBound(wksp[0..k]);
    Difference(Val(wksp[0..k]), Val(X), xl, h, r2, c, borrow, p, m, q3);
  }

  lemma LowWords(X: seq<mpw>, n: nat, xl: int) returns (h: int)
    requires xl == Resized(n, X)
    ensures Val(X) == h * P(n) + xl
  {
    hide Val, P, Resized;
    ResizedIsMod(n, X);
    DivMod(Val(X), P(n));
    h := Val(X) / P(n);
  }

  /** The words that mpbmod_w takes for the quotient are a good estimate. */
  lemma GoodEstimate(b: MpBarrett, X: seq<mpw>, q: seq<mpw>, S: seq<mpw>, q3: nat)
    requires b.Valid() && |X| == 2 * b.size && q == X[..b.size + 1] && |S| == b.size + 3
    requires Val(S) == Estimated(q, b.modl[b.size..b.size + (b.size + 1)])
    requires q3 == Val(S[..b.size + 1])
    ensures 0 <= Val(X) - q3 * b.Modulus() < 4 * b.Modulus()
    ensures 4 * b.Modulus() <= P(b.size + 1)
  {
    hide Val, P, Estimated;
    var k, m, mu := b.size, b.Modulus(), b.modl[b.size..b.size + (b.size + 1)];
    var a := P(k - 1);
    EstimatedError(q, mu, a);
    ValSplit(X, k + 1);
    ValBound(X[k + 1..]);
    ValBound(X);
    DivModUnique(Val(X), a, Val(q), Val(X[k + 1..]));
    ValSplit(S, k + 1);
    ValBound(S[k + 1..]);
    PSucc(0); PSucc(1); PSucc(k - 1); PSucc(k);
    DivModUnique(Val(S), W * W, q3, Val(S[k + 1..]));
    PAdd(k - 1, k + 1);
    ValBound(b.modl[0..k]);
    QuotientEstimate(Val(X), m, b.Mu(), Val(q), Val(S), a, P(k + 1), P(2 * k));
  }

  /** The last loop of mpbmod_w, which runs at most three times. */
  method SubtractModulus(b: MpBarrett, wksp: array<mpw>, ghost x: nat, ghost q3: nat)
    requires b.Usable() && wksp.Length >= 2 * b.size + 2 && wksp != b.modl
    requires Val(wksp[0..b.size + 1]) == x - q3 * b.Modulus() < 4 * b.Modulus()
    modifies wksp
    ensures Val(wksp[1..1 + b.size]) == Rem(x, b.Modulus())
  {
    hide Val, P;
    var size, modl: array<mpw> := b.size, b.modl;
    ghost var m, q, rounds := b.Modulus(), q3, 0;
    var ge := MpGex(size + 1, wksp, 0, size, modl, 0);
    while ge
      invariant modl[0..size] == old(modl[0..size]) && Val(modl[0..size]) == m > 0
      invariant q == q3 + rounds && 0 <= rounds <= 3
      invariant Val(wksp[0..size + 1]) == x - q * m < (4 - rounds) * m
      invariant ge <==> Val(wksp[0..size + 1]) >= m
      decreases Val(wksp[0..size + 1])
    {
      ghost var v := Val(wksp[0..size + 1]);
      ghost var borrow := MpSubx(size + 1, wksp, 0, size, modl, 0);
      NoBorrowAtAll(wksp[0..size + 1], v - m, borrow);
      assert (q + 1) * m == q * m + m;
      assert (4 - rounds) * m == (4 - (rounds + 1)) * m + m;
      if rounds == 3 { assert false; }
      q, rounds := q + 1, rounds + 1;
      ge := MpGex(size + 1, wksp, 0, size, modl, 0);
    }
    DivModUnique(x, m, q, Val(wksp[0..size + 1]));
    SmallRemainder(wksp[0..size + 1], modl[0..size]);
    assert wksp[0..size + 1][1..] == wksp[1..1 + size];
  }

  // ----- setting up mu

  /** The number W^(2k), shifted left by z bits, in 2k + 1 words. */
  function Dividend(z: nat, k: nat): (s: seq<mpw>)
    requires P2(z) < W
    ensures |s| == 2 * k + 1
  {
    [P2(z)] + seq(2 * k, i => 0 as mpw)
  }

  /** The division that sets up mu for the modulus s meets no equal leading words. */
  ghost predicate MuExact(s: seq<mpw>) {
    0 < |s| && forall z: nat :: P2(z) < W && TopShifted(s, Val(s) * P2(z)) ==>
      NoEqualWords(Dividend(z, |s|), 2 * |s| + 1, |s|, Val(s) * P2(z))
  }

  lemma DividendValue(z: nat, k: nat)
    requires P2(z) < W
    ensures Val(Dividend(z, k)) == P2(z) * P(2 * k)
  {
    hide Val, P, P2;
    var zeros := seq(2 * k, i => 0 as mpw);
    ValZero(zeros);
    ValConcat([P2(z)], zeros);
    ValOne([P2(z)]);
  }

  lemma CancelShift(a: int, m: int, e: int)
    requires 0 <= a && 0 < m && 0 < e
    ensures m * e > 0 && (e * a) / (m * e) == a / m
  {
    MulPos(m, e);
    DivMod(a, m);
    MulStep(a % m, m, e);
    MulMono(0, a % m, e);
    assert e * a == a / m * (m * e) + a % m * e by {
      assert (a / m * m + a % m) * e == a / m * (m * e) + a % m * e;
    }
    DivModUnique(e * a, m * e, a / m, a % m * e);
  }

  /** Sets mu for the modulus that b holds; the workspace is divmod, dividend and workspace. */
  method MpBMu(b: MpBarrett, divmod: array<mpw>, dividend: array<mpw>, workspace: array<mpw>)
    requires b.Usable()
    requires divmod.Length >= 2 * b.size + 2 && dividend.Length >= 2 * b.size + 1 && workspace.Length > b.size
    requires divmod != dividend && divmod != workspace && divmod != b.modl && dividend != workspace
    requires dividend != b.modl && workspace != b.modl
    modifies b.modl, divmod, dividend, workspace
    ensures b.Usable() && b.Modulus() == old(b.Modulus())
    ensures b.Valid() <==> MuExact(old(b.modl[0..b.size]))
  {
    hide Val, P, P2, NoEqualWords, Dividend, MuExact, Shl;
    var size, modl: array<mpw> := b.size, b.modl;
    ghost var M, m := modl[0..size], b.Modulus();
    LeadingNonZero(M);
    var shift := MpNorm(size, modl, 0);
    ghost var N := modl[0..size];
    LeadingPositive(N);
    ShiftedOne(shift);
    dividend[0] := Shl(1, shift);
    MpZero(2 * size, dividend, 1);
    ghost var X := dividend[..2 * size + 1];
    assert X[1..] == dividend[1..1 + 2 * size];
    DividendWords(X, shift, size);
    MpNDivMod(divmod, 2 * size + 1, dividend, size, modl, 0, workspace);
    ghost var Q := divmod[..size + 2];
    assert Q[1..] == divmod[1..1 + (size + 1)];
    StoreMu(size, modl, divmod, shift, m);
    MuSet(M, N, shift, X, Q);
  }

  /** The end of mpbmu_w: mu is stored behind the modulus, and the modulus is shifted back. */
  method StoreMu(size: nat, modl: array<mpw>, divmod: array<mpw>, shift: nat, ghost m: nat)
    requires modl.Length == 2 * size + 1 && divmod.Length >= 2 * size + 2 && divmod != modl
    requires Val(modl[0..size]) == m * P2(shift)
    modifies modl
    ensures Val(modl[0..size]) == m
    ensures modl[size..size + (size + 1)] == divmod[1..1 + (size + 1)]
  {
    hide Val, P, P2;
    MpCopy(size + 1, modl, size, divmod, 1);
    ghost var v := Val(modl[0..size]);
    MpRShift(size, modl, 0, shift);
    DivModUnique(v, P2(shift), m, 0);
  }

  lemma LeadingNonZero(s: seq<mpw>)
    requires |s| > 0 && P(|s| - 1) < Val(s)
    ensures s[0] != 0
  {
    hide Val, P;
    ValCons(s);
    ValBound(s[1..]);
  }

  lemma ShiftedOne(z: nat)
    requires z < MP_WBITS
    ensures Shl(1, z) as int == P2(z) < W
  {
    hide P2;
    P2Word();
    P2Mono(z, MP_WBITS - 1);
    DivModUnique(P2(z), W, 0, P2(z));
  }

  lemma DividendWords(X: seq<mpw>, z: nat, k: nat)
    requires P2(z) < W && |X| == 2 * k + 1 && X[0] as int == P2(z) && Val(X[1..]) == 0
    ensures X == Dividend(z, k)
  {
    hide Val, P, P2;
    ValZero(X[1..]);
    assert forall i :: 0 < i < |X| ==> X[i] == X[1..][i - 1];
  }

  /** The quotient is the wanted mu exactly when the division has met no equal leading words. */
  lemma MuSet(M: seq<mpw>, N: seq<mpw>, z: nat, X: seq<mpw>, Q: seq<mpw>)
    requires 0 < |M| == |N| && P(|M| - 1) < Val(M) && N[0] >= W / 2
    requires P2(z) < W && Val(N) == Val(M) * P2(z) > 0 && X == Dividend(z, |M|) && |Q| == |M| + 2
    requires Q[0] == if Val(X[..|M|]) >= Val(N) then 1 else 0
    requires Val(Q) == Quo(Val(X), Val(N)) <==> NoEqualWords(X, 2 * |M| + 1, |M|, Val(N))
    ensures Val(Q[1..]) == P(2 * |M|) / Val(M) <==> MuExact(M)
  {
    hide Val, P, P2, NoEqualWords, Dividend;
    var k, m, e := |M|, Val(M), P2(z);
    DividendValue(z, k);
    CancelShift(P(2 * k), m, e);
    TopOfDividend(X, z, k);
    MulStep(P(k - 1), m, e);
    assert P(k - 1) * e == e * P(k - 1);
    ValCons(Q);
    TopHalf(N);
    ValBound(N);
    assert TopShifted(M, Val(N));
    forall y: nat | P2(y) < W && TopShifted(M, m * P2(y))
      ensures y == z
    {
      TopShiftUnique(m, y, z, P(k));
    }
  }

  lemma TopOfDividend(X: seq<mpw>, z: nat, k: nat)
    requires P2(z) < W && 0 < k && X == Dividend(z, k)
    ensures Val(X[..k]) == P2(z) * P(k - 1)
  {
    hide Val, P, P2;
    ValCons(X[..k]);
    ValZero(X[..k][1..]);
  }

  /** The setup is exact for every modulus of one word. */
  lemma SingleWordExact(s: seq<mpw>)
    requires |s| == 1
    ensures MuExact(s)
  {
    hide Val, P, P2, NoEqualWords;
    forall z: nat | P2(z) < W && TopShifted(s, Val(s) * P2(z))
      ensures NoEqualWords(Dividend(z, 1), 3, 1, Val(s) * P2(z))
    {
      SingleWordNeverEqual(Dividend(z, 1), Val(s) * P2(z));
    }
  }

  /** It is not exact for the modulus W^2 - W + 1. */
  lemma UnhandledModulus()
    ensures Val([W - 1, 1]) == W * W - W + 1 && !MuExact([W - 1, 1])
  {
    var s: seq<mpw> := [W - 1, 1];
    var v := W * W - W + 1;
    ValTwo(W - 1, 1);
    P2Succ(0);
    PSucc(0);
    PSucc(1);
    PSucc(2);
    assert TopShifted(s, v) by {
      assert v == Val(s) * P2(0);
    }
    var x := Dividend(0, 2);
    LeadingPart(x);
    assert EqualWordsAt(x, 4, 2, v) by {
      DivModUnique(W * W * W, v, W, v - 1);
      DivModUnique(v - 1, W, W - 1, 0);
      DivModUnique(v, W, W - 1, 1);
    }
    assert Val(s) * P2(0) == v;
  }

  lemma LeadingPart(x: seq<mpw>)
    requires x == Dividend(0, 2)
    ensures |x| == 5 && Val(x[..4]) == W * W * W
  {
    hide Val, P;
    P2Succ(0);
    ValCons(x[..4]);
    ValZero(x[..4][1..]);
    PSucc(2);
    PSucc(1);
    PSucc(0);
  }
}
