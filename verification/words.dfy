/**
  Machine words and the numbers that big-endian word arrays denote.

  A pointer into a word array is modelled as the array together with an offset.
  The word width is the 64-bit one of the library; index 0 of a number is its most
  significant word.
 */
module Words {
  import opened Arith

  const MP_WBITS: nat := 64
  const W: int := 0x1_0000_0000_0000_0000

  type mpw = w: int | 0 <= w < W

  /** W to the power n. */
  function P(n: nat): (r: int)
    ensures r >= 1
  {
    if n == 0 then 1 else W * P(n - 1)
  }

  /** The number denoted by a big-endian word string. */
  function Val(s: seq<mpw>): (v: nat) {
    if |s| == 0 then 0 else Val(s[..|s| - 1]) * W + s[|s| - 1]
  }

  /** Every word outside [lo, hi) is as it was. */
  twostate predicate Kept(x: array<mpw>, lo: int, hi: int)
    reads x
  {
    forall i :: 0 <= i < x.Length && !(lo <= i < hi) ==> x[i] == old(x[i])
  }

  /** Every word and every window outside [lo, hi) is as it was. */
  twostate predicate Framed(x: array<mpw>, lo: int, hi: int)
    reads x
  {
    && Kept(x, lo, hi)
    && forall a, b {:trigger x[a..b]} :: 0 <= a <= b <= x.Length && (b <= lo || hi <= a) ==> x[a..b] == old(x[a..b])
  }

  lemma FrameWindows(before: seq<mpw>, after: seq<mpw>, lo: int, hi: int)
    requires |before| == |after|
    requires forall i :: 0 <= i < |after| && !(lo <= i < hi) ==> after[i] == before[i]
    ensures forall a, b {:trigger after[a..b]} :: 0 <= a <= b <= |after| && (b <= lo || hi <= a) ==>
              after[a..b] == before[a..b]
  {
  }

  /** A window cut in two. */
  lemma Windows(a: array<mpw>, lo: nat, mid: nat, hi: nat)
    requires lo <= mid <= hi <= a.Length
    ensures a[lo..hi][..mid - lo] == a[lo..mid] && a[lo..hi][mid - lo..] == a[mid..hi]
  {
  }

  /** The windows x[xo..xo + n] and y[yo..yo + m] share no word. */
  predicate Apart(x: array<mpw>, xo: int, n: int, y: array<mpw>, yo: int, m: int) {
    x != y || xo + n <= yo || yo + m <= xo
  }

  /** The windows are apart, or they are the very same window. */
  predicate ApartOrSame(x: array<mpw>, xo: int, y: array<mpw>, yo: int, n: int) {
    x != y || xo == yo || xo + n <= yo || yo + n <= xo
  }

  function Bit(b: bool): (r: int)
    ensures r == 0 || r == 1
  {
    if b then 1 else 0
  }

  /** A sum in the word type: the carry is dropped. */
  function WrapAdd(a: mpw, b: mpw, c: int): (r: mpw)
    requires 0 <= c <= 1
    ensures r as int == a as int + b as int + c || r as int == a as int + b as int + c - W
  {
    (a as int + b as int + c) % W
  }

  /** A difference in the word type: the borrow is dropped. */
  function WrapSub(a: mpw, b: mpw, c: int): (r: mpw)
    requires 0 <= c <= 1
    ensures r as int == a as int - b as int - c || r as int == a as int - b as int - c + W
  {
    (a as int - b as int - c) % W
  }

  /** Low word of a double word. */
  function Lo(n: int): (r: mpw) {
    n % W
  }

  /** High word of a double word. */
  function Hi(n: int): (r: mpw)
    requires 0 <= n < W * W
    ensures Lo(n) as int + r as int * W == n
  {
    n / W
  }

  /** A word shifted left by one bit. */
  function ShlOne(w: mpw): (r: mpw)
    ensures r as int + Msb(w) * W == 2 * w as int
  {
    2 * w as int % W
  }

  /** The top bit of a word. */
  function Msb(w: mpw): (r: int)
    ensures r == if w < W / 2 then 0 else 1
  {
    w as int / (W / 2)
  }

  /** A product of words leaves room for two more words in a double word. */
  lemma WordProduct(a: mpw, b: mpw)
    ensures 0 <= a as int * b as int <= (W - 1) * (W - 1)
  {
    MulBound(a, b, W - 1, W - 1);
  }

  // ----- powers of W

  lemma {:induction false} PAdd(m: nat, n: nat)
    ensures P(m + n) == P(m) * P(n)
  {
    hide P;
    PSucc(0);
    if m > 0 {
      PAdd(m - 1, n);
      PSucc(m - 1);
      PSucc(m - 1 + n);
      MulAssoc(W, P(m - 1), P(n));
    }
  }

  lemma PSucc(n: nat)
    ensures P(n + 1) == W * P(n)
    ensures P(0) == 1 && P(1) == W
  {
  }

  lemma {:induction false} PMono(m: nat, n: nat)
    requires m <= n
    ensures P(m) <= P(n)
    decreases n
  {
    if m < n {
      PMono(m, n - 1);
    }
  }

  // ----- values

  lemma ValEmpty(s: seq<mpw>)
    requires |s| == 0
    ensures Val(s) == 0
  {
  }

  lemma ValOne(s: seq<mpw>)
    requires |s| == 1
    ensures Val(s) == s[0]
  {
    ValEmpty(s[..0]);
  }

  lemma ValSnoc(s: seq<mpw>)
    requires |s| > 0
    ensures Val(s) == Val(s[..|s| - 1]) * W + s[|s| - 1]
  {
  }

  lemma {:induction false} ValConcat(s: seq<mpw>, t: seq<mpw>)
    ensures Val(s + t) == Val(s) * P(|t|) + Val(t)
  {
    if |t| == 0 {
      assert s + t == s;
    } else {
      var t' := t[..|t| - 1];
      assert (s + t)[..|s + t| - 1] == s + t';
      ValConcat(s, t');
      assert Val(s) * P(|t|) == Val(s) * P(|t'|) * W;
    }
  }

  lemma ValSplit(s: seq<mpw>, k: nat)
    requires k <= |s|
    ensures Val(s) == Val(s[..k]) * P(|s| - k) + Val(s[k..])
  {
    hide Val, P;
    assert s == s[..k] + s[k..];
    ValConcat(s[..k], s[k..]);
  }

  lemma ValCons(s: seq<mpw>)
    requires |s| > 0
    ensures Val(s) == s[0] * P(|s| - 1) + Val(s[1..])
  {
    hide Val, P;
    ValSplit(s, 1);
    ValOne(s[..1]);
  }

  lemma {:induction false} ValBound(s: seq<mpw>)
    ensures Val(s) < P(|s|)
  {
    if |s| > 0 {
      ValBound(s[..|s| - 1]);
    }
  }

  lemma {:induction false} ValZero(s: seq<mpw>)
    ensures Val(s) == 0 <==> forall i :: 0 <= i < |s| ==> s[i] == 0
  {
    if |s| > 0 {
      ValZero(s[..|s| - 1]);
      assert forall i :: 0 <= i < |s| - 1 ==> s[i] == s[..|s| - 1][i];
    }
  }

  /** Word strings of one length that denote the same number are equal. */
  lemma {:induction false} ValInjective(s: seq<mpw>, t: seq<mpw>)
    requires |s| == |t| && Val(s) == Val(t)
    ensures s == t
  {
    if |s| > 0 {
      var n := |s| - 1;
      assert Val(s) == Val(s[..n]) * W + s[n];
      assert Val(t) == Val(t[..n]) * W + t[n];
      assert Val(s[..n]) == Val(t[..n]);
      ValInjective(s[..n], t[..n]);
      assert s == s[..n] + [s[n]] && t == t[..n] + [t[n]];
    }
  }

  /** The words that denote a number. */
  function ToWords(v: nat, n: nat): (s: seq<mpw>)
    requires v < P(n)
    ensures |s| == n && Val(s) == v
  {
    if n == 0 then [] else
      PSucc(n - 1);
      var front := ToWords(v / W, n - 1);
      ValAppend(front, v % W);
      front + [v % W]
  }

  lemma ValAppend(s: seq<mpw>, w: mpw)
    ensures Val(s + [w]) == Val(s) * W + w
  {
    assert (s + [w])[..|s|] == s;
  }

  /** The step of every loop that runs from the least significant word upwards. */
  lemma Carry(z: mpw, tail: seq<mpw>, c: int, c': int, t: int, f: int)
    requires z as int + c' * W == t + c
    requires Val(tail) + c * P(|tail|) == f
    ensures Val([z] + tail) + c' * P(|tail| + 1) == f + t * P(|tail|)
  {
    hide Val, P;
    ValCons([z] + tail);
    PSucc(|tail|);
    assert ([z] + tail)[1..] == tail;
    CarryUp(z, c, c', t, P(|tail|));
  }

  lemma CarryUp(z: int, c: int, c': int, t: int, p: int)
    requires z + c' * W == t + c
    ensures z * p + c' * (W * p) == t * p + c * p
  {
    MulSum(z, c' * W, p);
    MulSum(t, c, p);
    MulAssoc(c', W, p);
  }

  // ----- powers of two and shifts of words

  /** 2 to the power n. */
  function P2(n: nat): (r: int)
    ensures r >= 1
  {
    if n == 0 then 1 else 2 * P2(n - 1)
  }

  lemma {:induction false} P2Add(m: nat, n: nat)
    ensures P2(m + n) == P2(m) * P2(n)
  {
    hide P2;
    P2Succ(0);
    if m > 0 {
      P2Add(m - 1, n);
      P2Succ(m - 1);
      P2Succ(m - 1 + n);
      MulAssoc(2, P2(m - 1), P2(n));
    }
  }

  lemma P2Succ(n: nat)
    ensures P2(n + 1) == 2 * P2(n)
    ensures P2(0) == 1 && P2(1) == 2
  {
  }

  lemma {:induction false} P2Mono(m: nat, n: nat)
    requires m <= n
    ensures P2(m) <= P2(n)
    ensures m < n ==> 2 * P2(m) <= P2(n)
    decreases n
  {
    if m < n {
      P2Mono(m, n - 1);
    }
  }

  lemma P2Word()
    ensures P2(MP_WBITS) == W
    ensures P2(MP_WBITS - 1) == W / 2
  {
    assert P2(4) == 16;
    assert P2(8) == 256 by { P2Add(4, 4); }
    assert P2(16) == 0x1_0000 by { P2Add(8, 8); }
    assert P2(32) == 0x1_0000_0000 by { P2Add(16, 16); }
    P2Add(32, 32);
    P2Succ(MP_WBITS - 1);
  }

  lemma {:induction false} PIsP2(n: nat)
    ensures P(n) == P2(MP_WBITS * n)
  {
    if n > 0 {
      PIsP2(n - 1);
      P2Word();
      P2Add(MP_WBITS, MP_WBITS * (n - 1));
    }
  }

  lemma QuotientBound(n: int, d: int)
    requires 0 <= n && 1 <= d
    ensures 0 <= n / d <= n
  {
    var q := n / d;
    DivMod(n, d);
    if q < 0 {
      MulStep(q, 0, d);
    }
    if q > n {
      MulStep(n, q, d);
      MulMono(1, d, n);
    }
  }

  /** A word shifted left; a shift by the whole word width is read as zero. */
  function Shl(w: mpw, b: nat): (r: mpw) {
    (w as int * P2(b)) % W
  }

  /** A word shifted right. */
  function Shr(w: mpw, b: nat): (r: mpw)
  {
    var q := w as int / P2(b);
    assert 0 <= q <= w as int by {
      QuotientBound(w, P2(b));
    }
    q
  }

  /** A word is cut into the part a left shift keeps and the part the opposite right shift keeps. */
  lemma Rotate(w: mpw, b: nat)
    requires b <= MP_WBITS
    ensures Shl(w, b) as int + Shr(w, MP_WBITS - b) * W == w as int * P2(b)
    ensures Shr(w, MP_WBITS - b) < P2(b)
    ensures Shl(w, b) as int + P2(b) <= W
  {
    hide P2;
    P2Add(b, MP_WBITS - b);
    P2Word();
    Cut(w, P2(b), P2(MP_WBITS - b));
  }

  lemma Cut(w: int, e: int, f: int)
    requires 0 <= w < W && 1 <= e && 1 <= f && e * f == W
    ensures w * e % W + w / f * W == w * e
    ensures 0 <= w / f < e
    ensures w * e % W + e <= W
  {
    var q, r := w / f, w % f;
    DivMod(w, f);
    assert (q * f + r) * e == q * (e * f) + r * e;
    MulStep(r, f, e);
    assert f * e == e * f;
    MulMono(0, r, e);
    DivModUnique(w * e, W, q, r * e);
    if q >= e {
      MulMono(e, q, f);
    }
    if q < 0 {
      MulStep(q, 0, f);
    }
  }
}
