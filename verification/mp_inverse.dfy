/**
  Modular inversion by the extended binary algorithm (mp.c). Two numbers u and v shrink to
  their greatest common divisor, while u = a * x + b * y and v = c * x + d * y. The
  coefficients are kept in two's complement, in one word more than the operands have.
 */
module MpInverse {
  import opened Arith
  import opened NumberTheory
  import opened Words
  import opened MpCompare
  import opened MpAddSub
  import opened MpShift
  import opened MpDivide
  import opened MpGcd

  // ----- numbers in two's complement

  lemma Parity(a: int, b: int)
    ensures (a * b) % 2 == (a % 2) * (b % 2)
  {
    var q, r := a / 2, b / 2;
    if a % 2 == 0 {
      MulAssoc(2, q, b);
    } else {
      MulSum(2 * q, 1, b);
      MulAssoc(2, q, b);
    }
  }

  lemma SValParity(s: seq<mpw>)
    requires |s| > 0
    ensures SVal(s) % 2 == s[|s| - 1] % 2
  {
    hide Val, P;
    OddNumber(s);
    PSucc(|s| - 1);
  }

  /** A signed number v can be written in n words. */
  ghost predicate Fits(v: int, n: nat) {
    -P(n) <= 2 * v < P(n)
  }

  lemma SValOfSum(s: seq<mpw>, t: seq<mpw>, y: int, k: int)
    requires |s| == |t| > 0 && Val(t) == Val(s) + y + k * P(|s|)
    requires Fits(SVal(s) + y, |s|)
    ensures SVal(t) == SVal(s) + y
  {
    hide Val, P;
    var j := if s[0] < W / 2 then k else k + 1;
    MulSum(k, 1, P(|s|));
    SValUnique(t, SVal(s) + y, j);
  }

  /** s += y, where s is signed. */
  method SAddx(n: nat, s: array<mpw>, size: nat, y: array<mpw>, yo: nat)
    requires 0 < size < n && n <= s.Length && yo + size <= y.Length && s != y
    requires Fits(SVal(s[0..n]) + Val(y[yo..yo + size]), n)
    modifies s
    ensures SVal(s[0..n]) == old(SVal(s[0..n])) + Val(y[yo..yo + size])
  {
    hide Val, P, SVal;
    ghost var S, Y := s[0..n], y[yo..yo + size];
    ResizedShort(n, Y);
    ghost var carry := MpAddx(n, s, 0, size, y, yo);
    SValOfSum(S, s[0..n], Val(Y), -carry);
  }

  lemma ResizedShort(n: nat, s: seq<mpw>)
    requires |s| <= n
    ensures Resized(n, s) == Val(s)
  {
  }

  /** s -= y, where s is signed. */
  method SSubx(n: nat, s: array<mpw>, size: nat, y: array<mpw>, yo: nat)
    requires 0 < size < n && n <= s.Length && yo + size <= y.Length && s != y
    requires Fits(SVal(s[0..n]) - Val(y[yo..yo + size]), n)
    modifies s
    ensures SVal(s[0..n]) == old(SVal(s[0..n])) - Val(y[yo..yo + size])
  {
    hide Val, P, SVal;
    ghost var S, Y := s[0..n], y[yo..yo + size];
    ResizedShort(n, Y);
    ghost var borrow := MpSubx(n, s, 0, size, y, yo);
    ghost var v: int := Val(Y);
    SValOfSum(S, s[0..n], -v, borrow);
  }

  /** s -= t, where both are signed. */
  method SSub(n: nat, s: array<mpw>, t: array<mpw>)
    requires 0 < n <= s.Length && n <= t.Length && s != t
    requires Fits(SVal(s[0..n]) - SVal(t[0..n]), n)
    modifies s
    ensures SVal(s[0..n]) == old(SVal(s[0..n])) - SVal(t[0..n])
  {
    hide Val, P;
    ghost var S, T := s[0..n], t[0..n];
    ghost var borrow := MpSub(n, s, 0, t, 0);
    ghost var v := SVal(T);
    MulSum(borrow, -1, P(n));
    SValOfSum(S, s[0..n], -v, if T[0] < W / 2 then borrow else borrow - 1);
  }

  // ----- halving u together with its coefficients

  /** The step that makes both coefficients even. */
  lemma EvenCoefficients(x: int, y: int, u: int, a: int, b: int)
    requires u == a * x + b * y && u % 2 == 0
    requires x % 2 == 1 || y % 2 == 1
    ensures var adjust := b % 2 == 1 || (x % 2 == 0 && a % 2 == 1);
            var a', b' := if adjust then a + y else a, if adjust then b - x else b;
            a' % 2 == 0 && b' % 2 == 0 && u == a' * x + b' * y && u / 2 == a' / 2 * x + b' / 2 * y
  {
    var adjust := b % 2 == 1 || (x % 2 == 0 && a % 2 == 1);
    var a', b' := if adjust then a + y else a, if adjust then b - x else b;
    SameCombination(a, b, x, y);
    EvenPair(a, b, x, y, u);
    EvenPair(a', b', x, y, u);
    Halves(a', x, b', y, u);
  }

  lemma SameCombination(a: int, b: int, x: int, y: int)
    ensures (a + y) * x + (b - x) * y == a * x + b * y
  {
    MulSum(a, y, x);
    MulDiff(b, x, y);
    assert y * x == x * y;
  }

  lemma EvenPair(a: int, b: int, x: int, y: int, u: int)
    requires u == a * x + b * y && u % 2 == 0
    requires x % 2 == 1 || y % 2 == 1
    ensures x % 2 == 0 ==> b % 2 == 0
    ensures x % 2 == 1 && b % 2 == 0 ==> a % 2 == 0
  {
    Parity(a, x);
    Parity(b, y);
    EvenSum(a * x, b * y, u, a, b, x % 2, y % 2);
  }

  lemma EvenSum(p: int, q: int, u: int, a: int, b: int, x: int, y: int)
    requires u == p + q && u % 2 == 0
    requires (x == 1 || x == 0) && (y == 0 || y == 1)
    requires p % 2 == (a % 2) * x && q % 2 == (b % 2) * y
    requires x == 1 || y == 1
    ensures x == 0 ==> b % 2 == 0
    ensures x == 1 && b % 2 == 0 ==> a % 2 == 0
  {
  }

  lemma Halves(a: int, x: int, b: int, y: int, u: int)
    requires a % 2 == 0 && b % 2 == 0 && u == a * x + b * y
    ensures u / 2 == a / 2 * x + b / 2 * y
  {
    MulAssoc(2, a / 2, x);
    MulAssoc(2, b / 2, y);
  }

  ghost function Abs(a: int): int {
    if a < 0 then -a else a
  }

  /** How large the coefficients may get in round t. */
  ghost function Bound(t: nat, size: nat): int {
    (t + 1) * P(size)
  }

  /** All coefficients of round t, and their sums with an operand, fit into size + 1 words. */
  lemma RoomForCoefficients(t: nat, size: nat, v: int, z: int)
    requires t <= 2 * MP_WBITS * size + 1 && size <= 0x1_0000_0000_0000
    requires Abs(v) <= 2 * Bound(t, size) && Abs(z) <= 2 * Bound(t, size)
    ensures Fits(v + z, size + 1)
  {
    hide P, Bound;
    PSucc(size);
    BoundBelow(t, size);
  }

  lemma BoundBelow(t: nat, size: nat)
    requires t <= 2 * MP_WBITS * size + 1 && size <= 0x1_0000_0000_0000
    ensures 16 * Bound(t, size) <= W * P(size)
  {
    hide P;
    var rounds := t + 1;
    assert rounds <= W / 16;
    MulMono(rounds, W / 16, P(size));
  }

  /** While u is even it is halved, together with its coefficients. The coefficient of x is kept
      only in full mode, which is when x is even. */
  method Halve(size: nat, full: bool, u: array<mpw>, a: array<mpw>, b: array<mpw>,
               x: array<mpw>, xo: nat, y: array<mpw>, yo: nat, ghost ga: int, ghost gb: int, ghost t: nat)
      returns (ghost ga': int, ghost gb': int, ghost z: nat)
    requires Operands(size, full, x, xo, y, yo)
    requires Buffer(u, size, x, y) && Buffer(a, size, x, y) && Buffer(b, size, x, y) && u != a && u != b && a != b
    requires t <= 2 * MP_WBITS * size
    requires var n, X, Y := size + 1, Val(x[xo..xo + size]), Val(y[yo..yo + size]);
             && Val(u[0..n]) > 0 && Val(u[0..n]) == ga * X + gb * Y
             && SVal(b[0..n]) == gb && (full ==> SVal(a[0..n]) == ga)
             && Abs(ga) <= 2 * Bound(t, size) && Abs(gb) <= 2 * Bound(t, size)
             && (Val(u[0..n]) % 2 == 1 ==> Abs(ga) <= Bound(t, size) && Abs(gb) <= Bound(t, size))
    modifies u, a, b
    ensures var n, X, Y := size + 1, Val(x[xo..xo + size]), Val(y[yo..yo + size]);
            && Val(u[0..n]) % 2 == 1 && Val(u[0..n]) == ga' * X + gb' * Y
            && SVal(b[0..n]) == gb' && (full ==> SVal(a[0..n]) == ga')
            && Abs(ga') <= Bound(t + 1, size) && Abs(gb') <= Bound(t + 1, size)
    ensures Val(u[0..size + 1]) * P2(z) == old(Val(u[0..size + 1]))
    ensures old(Val(u[0..size + 1])) % 2 == 0 ==> z > 0
  {
    hide Val, P, P2, SVal, Bound;
    ghost var n, X, Y, U := size + 1, Val(x[xo..xo + size]), Val(y[yo..yo + size]), Val(u[0..size + 1]);
    ghost var xs, ys := x[xo..xo + size], y[yo..yo + size];
    ga', gb', z := ga, gb, 0;
    P2Succ(0);
    OddNumber(u[0..n]);
    NextBound(t, size);
    while u[size] % 2 == 0
      invariant x[xo..xo + size] == xs && y[yo..yo + size] == ys
      invariant Val(u[0..n]) > 0 && Val(u[0..n]) == ga' * X + gb' * Y
      invariant Val(u[0..n]) % 2 == u[size] % 2
      invariant SVal(b[0..n]) == gb' && (full ==> SVal(a[0..n]) == ga')
      invariant Val(u[0..n]) * P2(z) == U
      invariant if z == 0 then Val(u[0..n]) == U && ga' == ga && gb' == gb
                else Abs(ga') <= Bound(t + 1, size) && Abs(gb') <= Bound(t + 1, size)
      decreases Val(u[0..n])
    {
      ghost var v := Val(u[0..n]);
      HalfTimes(v, P2(z), U);
      P2Succ(z);
      EvenCoefficients(X, Y, v, ga', gb');
      ga', gb' := HalveOnce(size, full, u, a, b, x, xo, y, yo, ga', gb', t);
      z := z + 1;
      OddNumber(u[0..n]);
    }
  }

  lemma HalfTimes(v: int, e: int, w: int)
    requires v % 2 == 0 && v * e == w
    ensures v / 2 * (2 * e) == w
  {
  }

  /** x and y are the operands, not both even; full tells that x is even. */
  ghost predicate Operands(size: nat, full: bool, x: array<mpw>, xo: nat, y: array<mpw>, yo: nat)
    reads x, y
  {
    && 0 < size <= 0x1_0000_0000_0000 && xo + size <= x.Length && yo + size <= y.Length
    && (Val(x[xo..xo + size]) % 2 == 1 || Val(y[yo..yo + size]) % 2 == 1)
    && (full <==> Val(x[xo..xo + size]) % 2 == 0)
  }

  predicate Buffer(u: array<mpw>, size: nat, x: array<mpw>, y: array<mpw>) {
    u.Length >= size + 1 && u != x && u != y
  }

  lemma NextBound(t: nat, size: nat)
    ensures Bound(t + 1, size) == Bound(t, size) + P(size)
    ensures Bound(t, size) >= P(size)
  {
    hide P;
    MulSum(t, 1, P(size));
    MulSum(t + 1, 1, P(size));
    MulMono(0, t, P(size));
  }

  lemma HalfWithinBound(g: int, g': int, t: nat, size: nat, w: int)
    requires Abs(g) <= 2 * Bound(t, size) || Abs(g) <= Bound(t + 1, size)
    requires g' == g || g' == g + w
    requires Abs(w) <= P(size)
    ensures Abs(g' / 2) <= Bound(t + 1, size)
  {
    hide P, Bound;
    NextBound(t, size);
  }

  /** The body of the loop. */
  method HalveOnce(size: nat, full: bool, u: array<mpw>, a: array<mpw>, b: array<mpw>,
                   x: array<mpw>, xo: nat, y: array<mpw>, yo: nat, ghost ga: int, ghost gb: int, ghost t: nat)
      returns (ghost ga': int, ghost gb': int)
    requires Operands(size, full, x, xo, y, yo)
    requires Buffer(u, size, x, y) && Buffer(a, size, x, y) && Buffer(b, size, x, y) && u != a && u != b && a != b
    requires t <= 2 * MP_WBITS * size
    requires var n, X, Y := size + 1, Val(x[xo..xo + size]), Val(y[yo..yo + size]);
             && Val(u[0..n]) % 2 == 0 && Val(u[0..n]) > 0 && Val(u[0..n]) == ga * X + gb * Y
             && SVal(b[0..n]) == gb && (full ==> SVal(a[0..n]) == ga)
             && (Abs(ga) <= 2 * Bound(t, size) || Abs(ga) <= Bound(t + 1, size))
             && (Abs(gb) <= 2 * Bound(t, size) || Abs(gb) <= Bound(t + 1, size))
    modifies u, a, b
    ensures var n, X, Y := size + 1, Val(x[xo..xo + size]), Val(y[yo..yo + size]);
            && Val(u[0..n]) == old(Val(u[0..n])) / 2 && Val(u[0..n]) == ga' * X + gb' * Y
            && SVal(b[0..n]) == gb' && (full ==> SVal(a[0..n]) == ga')
            && Abs(ga') <= Bound(t + 1, size) && Abs(gb') <= Bound(t + 1, size)
  {
    hide Val, P, P2, SVal, Bound;
    var n := size + 1;
    ghost var X, Y, v := Val(x[xo..xo + size]), Val(y[yo..yo + size]), Val(u[0..n]);
    ghost var xs, ys := x[xo..xo + size], y[yo..yo + size];
    ValBound(xs);
    ValBound(ys);
    EvenCoefficients(X, Y, v, ga, gb);
    MpDivTwo(n, u, 0);
    SValParity(b[0..n]);
    SValParity(a[0..n]);
    var adjust := b[size] % 2 == 1 || (full && a[size] % 2 == 1);
    ga', gb' := ga, gb;
    if adjust {
      NextBound(t, size);
      Room(t, size, ga, Y);
      Room(t, size, gb, -(X as int));
      if full {
        SAddx(n, a, size, y, yo);
      }
      SSubx(n, b, size, x, xo);
      ga', gb' := ga + Y, gb - X;
    }
    HalfWithinBound(ga, ga', t, size, Y);
    HalfWithinBound(gb, gb', t, size, -(X as int));
    if full {
      MpSDivTwo(n, a, 0);
    }
    MpSDivTwo(n, b, 0);
    ga', gb' := ga' / 2, gb' / 2;
  }

  lemma Room(t: nat, size: nat, v: int, z: int)
    requires t <= 2 * MP_WBITS * size && size <= 0x1_0000_0000_0000
    requires Abs(v) <= 2 * Bound(t, size) || Abs(v) <= Bound(t + 1, size)
    requires Abs(z) <= P(size)
    ensures Fits(v + z, size + 1)
  {
    hide P, Bound;
    NextBound(t, size);
    RoomForCoefficients(t, size, v, z);
  }

  // ----- rounds

  /** The buffers of the algorithm, which in the source are parts of one workspace. */
  datatype Work = Work(u: array<mpw>, v: array<mpw>, a: array<mpw>, b: array<mpw>, c: array<mpw>, d: array<mpw>)
  {
    predicate Separate(size: nat, x: array<mpw>, y: array<mpw>, result: array<mpw>) {
      && Buffer(u, size, x, y) && Buffer(v, size, x, y) && Buffer(a, size, x, y)
      && Buffer(b, size, x, y) && Buffer(c, size, x, y) && Buffer(d, size, x, y)
      && u != v && u != a && u != b && u != c && u != d && v != a && v != b && v != c && v != d
      && a != b && a != c && a != d && b != c && b != d && c != d
      && result != u && result != v && result != a && result != b && result != c && result != d
      && result != x && result != y
    }
  }

  /** The numbers u and v with their coefficients. */
  datatype Values = Values(u: nat, v: nat, a: int, b: int, c: int, d: int)

  /** The buffers hold the values; the coefficients of x only in full mode. */
  ghost predicate Holds(w: Work, n: nat, full: bool, s: Values)
    requires n > 0 && w.u.Length >= n && w.v.Length >= n && w.a.Length >= n && w.b.Length >= n
    requires w.c.Length >= n && w.d.Length >= n
    reads w.u, w.v, w.a, w.b, w.c, w.d
  {
    && Val(w.u[0..n]) == s.u && Val(w.v[0..n]) == s.v
    && SVal(w.b[0..n]) == s.b && SVal(w.d[0..n]) == s.d
    && (full ==> SVal(w.a[0..n]) == s.a && SVal(w.c[0..n]) == s.c)
  }

  /** u and v are combinations of the operands, with their greatest common divisor. */
  ghost predicate Combined(s: Values, x: nat, y: nat) {
    && s.u == s.a * x + s.b * y && s.v == s.c * x + s.d * y
    && (s.u % 2 == 1 || s.v % 2 == 1) && s.u + s.v > 0 && x + y > 0
    && Gcd(s.u, s.v) == Gcd(x, y)
  }

  ghost predicate Small(g: int, h: int, even: bool, t: nat, size: nat) {
    && Abs(g) <= 2 * Bound(t, size) && Abs(h) <= 2 * Bound(t, size)
    && (!even ==> Abs(g) <= Bound(t, size) && Abs(h) <= Bound(t, size))
  }

  ghost predicate Below(e: int, u: int, v: int, x: int, y: int) {
    e * (u * v) <= x * y
  }

  /** What holds at the start of round t. */
  ghost predicate RoundInvariant(s: Values, x: nat, y: nat, t: nat, size: nat) {
    && Combined(s, x, y) && s.u > 0 && s.v > 0
    && Small(s.a, s.b, s.u % 2 == 0, t, size) && Small(s.c, s.d, s.v % 2 == 0, t, size)
    && if t == 0 then s.u == x && s.v == y
       else (s.u % 2 == 0 || s.v % 2 == 0) && Below(P2(t - 1), s.u, s.v, x, y)
  }

  lemma FirstRound(x: nat, y: nat, size: nat)
    requires x > 0 && y > 0 && (x % 2 == 1 || y % 2 == 1)
    ensures RoundInvariant(Values(x, y, 1, 0, 0, 1), x, y, 0, size) && Combined(Values(x, y, 1, 0, 0, 1), x, y)
  {
    hide P, Gcd;
    assert Bound(0, size) == P(size);
  }

  /** Halving takes out of the product of both numbers at least one factor of two in all rounds
      but the first. */
  lemma ProductShrinks(s: Values, z: nat, u: nat, z': nat, v: nat, x: nat, y: nat, t: nat, size: nat)
    requires RoundInvariant(s, x, y, t, size)
    requires u * P2(z) == s.u && v * P2(z') == s.v
    requires s.u % 2 == 0 ==> z > 0
    requires s.v % 2 == 0 ==> z' > 0
    ensures Below(P2(t), u, v, x, y)
  {
    hide P2, Gcd, Small, Combined;
    P2Add(z, z');
    Regrouped(u, P2(z), v, P2(z'));
    MulMono(0, u, v);
    P2Succ(0);
    if t == 0 {
      MulMono(1, P2(z + z'), u * v);
    } else {
      P2Succ(t - 1);
      P2Mono(1, z + z');
      HalfOfProduct(P2(z + z'), P2(t - 1), u * v, s.u * s.v, x * y);
    }
  }

  lemma Regrouped(u: int, e: int, v: int, f: int)
    ensures (u * e) * (v * f) == (e * f) * (u * v)
  {
    calc {
      (u * e) * (v * f);
      u * (e * (v * f));
      u * (v * (e * f));
      (e * f) * (u * v);
    }
  }

  lemma HalfOfProduct(e: int, h: int, p: int, q: int, w: int)
    requires 2 <= e && 0 <= p && 0 < h && q == e * p && h * q <= w
    ensures 2 * h * p <= w
  {
    MulMono(2, e, p);
    MulMono(2 * p, q, h);
    assert (2 * p) * h == 2 * h * p && q * h == h * q;
  }

  /** There are at most as many rounds as the operands have bits. */
  lemma FewRounds(t: nat, u: nat, v: nat, x: nat, y: nat, size: nat)
    requires u > 0 && v > 0 && x < P(size) && y < P(size)
    requires Below(P2(t), u, v, x, y)
    ensures t < 2 * MP_WBITS * size
  {
    hide P, P2;
    MulPos(u, v);
    MulMono(1, u * v, P2(t));
    assert (u * v) * P2(t) == P2(t) * (u * v);
    MulBound(x, y, P(size) - 1, P(size) - 1);
    PAdd(size, size);
    SquareBelow(P(size));
    PIsP2(2 * size);
    if t >= MP_WBITS * (2 * size) {
      P2Mono(MP_WBITS * (2 * size), t);
    }
  }

  /** Both numbers and their coefficients after halving. */
  ghost predicate Halved(s: Values, x: nat, y: nat, t: nat, size: nat) {
    && Combined(s, x, y) && s.u % 2 == 1 && s.v % 2 == 1
    && Small(s.a, s.b, false, t + 1, size) && Small(s.c, s.d, false, t + 1, size)
    && Below(P2(t), s.u, s.v, x, y)
  }

  /** The values after the smaller number has been taken off the larger one. */
  ghost function Subtracted(s: Values): Values {
    if s.u >= s.v then Values(s.u - s.v, s.v, s.a - s.c, s.b - s.d, s.c, s.d)
    else Values(s.u, s.v - s.u, s.a, s.b, s.c - s.a, s.d - s.b)
  }

  lemma AfterSubtraction(s: Values, x: nat, y: nat, t: nat, size: nat)
    requires Halved(s, x, y, t, size)
    ensures var s' := Subtracted(s);
            Combined(s', x, y) && (s'.u > 0 ==> RoundInvariant(s', x, y, t + 1, size))
  {
    hide P2, Gcd, Bound, Below, Combined;
    SubtractedCombined(s, x, y);
    SubtractedBelow(s, P2(t), x, y);
  }

  lemma SubtractedCombined(s: Values, x: nat, y: nat)
    requires Combined(s, x, y) && s.u % 2 == 1 && s.v % 2 == 1
    ensures Combined(Subtracted(s), x, y)
  {
    hide Gcd;
    SubtractedGcd(s);
    DifferenceCombined(s, x, y);
  }

  lemma SubtractedGcd(s: Values)
    requires s.u % 2 == 1 && s.v % 2 == 1
    ensures var s' := Subtracted(s); s'.u + s'.v > 0 && Gcd(s'.u, s'.v) == Gcd(s.u, s.v)
  {
    hide Gcd;
    if s.u >= s.v {
      GcdSubtract(s.u, s.v);
    } else {
      GcdSymmetric(s.u, s.v);
      GcdSubtract(s.v, s.u);
      GcdSymmetric(s.v - s.u, s.u);
    }
  }

  lemma SubtractedBelow(s: Values, e: int, x: int, y: int)
    requires 0 < e && Below(e, s.u, s.v, x, y)
    ensures Below(e, Subtracted(s).u, Subtracted(s).v, x, y)
  {
    hide Below;
    if s.u >= s.v {
      SmallerProduct(s.u - s.v, s.u, s.v, e, x, y);
    } else {
      Commuted(e, s.u, s.v, x, y);
      SmallerProduct(s.v - s.u, s.v, s.u, e, x, y);
      Commuted(e, s.v - s.u, s.u, x, y);
    }
  }

  lemma DifferenceCombined(s: Values, x: nat, y: nat)
    requires s.u == s.a * x + s.b * y && s.v == s.c * x + s.d * y
    ensures var s' := Subtracted(s); s'.u == s'.a * x + s'.b * y && s'.v == s'.c * x + s'.d * y
  {
    MulDiff(s.a, s.c, x);
    MulDiff(s.b, s.d, y);
    MulDiff(s.c, s.a, x);
    MulDiff(s.d, s.b, y);
  }

  lemma SmallerProduct(u': int, u: int, v: int, e: int, x: int, y: int)
    requires 0 <= u' <= u && 0 <= v && 0 < e && Below(e, u, v, x, y)
    ensures Below(e, u', v, x, y)
  {
    MulMono(u', u, v);
    MulMono(u' * v, u * v, e);
    assert (u' * v) * e == e * (u' * v) && (u * v) * e == e * (u * v);
  }

  lemma Commuted(e: int, u: int, v: int, x: int, y: int)
    requires Below(e, u, v, x, y)
    ensures Below(e, v, u, x, y)
  {
    assert u * v == v * u;
  }

  /** The two halving loops of a round. */
  method HalveBoth(size: nat, full: bool, w: Work, x: array<mpw>, xo: nat, y: array<mpw>, yo: nat,
                   ghost result: array<mpw>, ghost s: Values, ghost t: nat)
      returns (ghost s': Values)
    requires Operands(size, full, x, xo, y, yo) && w.Separate(size, x, y, result)
    requires var X, Y := Val(x[xo..xo + size]), Val(y[yo..yo + size]);
             X > 0 && Y > 0 && Holds(w, size + 1, full, s) && RoundInvariant(s, X, Y, t, size)
    modifies w.u, w.v, w.a, w.b, w.c, w.d
    ensures t <= 2 * MP_WBITS * size
    ensures var X, Y := Val(x[xo..xo + size]), Val(y[yo..yo + size]);
            Holds(w, size + 1, full, s') && Halved(s', X, Y, t, size)
    ensures 0 < s'.u <= s.u && 0 < s'.v <= s.v
  {
    hide Val, P, P2, SVal, Gcd, Below, Bound, Halved;
    ghost var X, Y := Val(x[xo..xo + size]), Val(y[yo..yo + size]);
    RoundNumber(s, X, Y, t, x[xo..xo + size], y[yo..yo + size]);
    ghost var a, b, z := Halve(size, full, w.u, w.a, w.b, x, xo, y, yo, s.a, s.b, t);
    ghost var u := Val(w.u[0..size + 1]);
    assert Val(w.v[0..size + 1]) == s.v && SVal(w.d[0..size + 1]) == s.d;
    ghost var c, d, z' := Halve(size, full, w.v, w.c, w.d, x, xo, y, yo, s.c, s.d, t);
    ghost var v := Val(w.v[0..size + 1]);
    s' := Values(u, v, a, b, c, d);
    HalvedValues(s, z, z', s', X, Y, t, size);
  }

  lemma HalvedValues(s: Values, z: nat, z': nat, s': Values, x: nat, y: nat, t: nat, size: nat)
    requires RoundInvariant(s, x, y, t, size)
    requires s'.u * P2(z) == s.u && s'.v * P2(z') == s.v
    requires s.u % 2 == 0 ==> z > 0
    requires s.v % 2 == 0 ==> z' > 0
    requires s'.u % 2 == 1 && s'.u == s'.a * x + s'.b * y
    requires s'.v % 2 == 1 && s'.v == s'.c * x + s'.d * y
    requires Small(s'.a, s'.b, false, t + 1, size) && Small(s'.c, s'.d, false, t + 1, size)
    ensures Halved(s', x, y, t, size)
    ensures 0 < s'.u <= s.u && 0 < s'.v <= s.v
  {
    hide P2, Gcd, Below, Small;
    ProductShrinks(s, z, s'.u, z', s'.v, x, y, t, size);
    BothShifted(s.u, z, s'.u, s.v, z', s'.v);
    Shrunk(s'.u, z, s.u);
    Shrunk(s'.v, z', s.v);
  }

  lemma Shrunk(v: nat, z: nat, w: nat)
    requires v * P2(z) == w
    ensures v <= w
  {
    hide P2;
    MulMono(1, P2(z), v);
  }

  lemma RoundNumber(s: Values, x: nat, y: nat, t: nat, xs: seq<mpw>, ys: seq<mpw>)
    requires |xs| == |ys| > 0 && x == Val(xs) > 0 && y == Val(ys) > 0
    requires RoundInvariant(s, x, y, t, |xs|)
    ensures t <= 2 * MP_WBITS * |xs|
  {
    hide Val, P, P2, Gcd, Below, Small, Combined;
    ValBound(xs);
    ValBound(ys);
    if t > 0 {
      FewRounds(t - 1, s.u, s.v, x, y, |xs|);
    }
  }

  /** The subtraction of a round, on numbers and coefficients. */
  method Subtract(size: nat, full: bool, w: Work, x: array<mpw>, y: array<mpw>, ghost result: array<mpw>,
                  ghost s: Values, ghost t: nat)
    requires 0 < size <= 0x1_0000_0000_0000 && t <= 2 * MP_WBITS * size
    requires w.Separate(size, x, y, result) && Holds(w, size + 1, full, s)
    requires Small(s.a, s.b, false, t + 1, size) && Small(s.c, s.d, false, t + 1, size)
    modifies w.u, w.v, w.a, w.b, w.c, w.d
    ensures Holds(w, size + 1, full, Subtracted(s))
  {
    hide Val, P, P2, SVal, Bound;
    var n := size + 1;
    var ge := MpGe(n, w.u, 0, w.v, 0);
    if ge {
      ghost var borrow := MpSub(n, w.u, 0, w.v, 0);
      NoBorrowAtAll(w.u[0..n], s.u - s.v, borrow);
      SubtractCoefficients(size, full, w.a, w.b, w.c, w.d, s.a, s.b, s.c, s.d, t);
    } else {
      ghost var borrow := MpSub(n, w.v, 0, w.u, 0);
      NoBorrowAtAll(w.v[0..n], s.v - s.u, borrow);
      SubtractCoefficients(size, full, w.c, w.d, w.a, w.b, s.c, s.d, s.a, s.b, t);
    }
  }

  method SubtractCoefficients(size: nat, full: bool, a: array<mpw>, b: array<mpw>, c: array<mpw>, d: array<mpw>,
                              ghost ga: int, ghost gb: int, ghost gc: int, ghost gd: int, ghost t: nat)
    requires 0 < size <= 0x1_0000_0000_0000 && t <= 2 * MP_WBITS * size
    requires a.Length > size && b.Length > size && c.Length > size && d.Length > size
    requires a != b && a != c && a != d && b != c && b != d
    requires SVal(b[0..size + 1]) == gb && SVal(d[0..size + 1]) == gd
    requires full ==> SVal(a[0..size + 1]) == ga && SVal(c[0..size + 1]) == gc
    requires Small(ga, gb, false, t + 1, size) && Small(gc, gd, false, t + 1, size)
    modifies a, b
    ensures SVal(b[0..size + 1]) == gb - gd
    ensures full ==> SVal(a[0..size + 1]) == ga - gc
  {
    hide Val, P, SVal, Bound;
    RoomForCoefficients(t + 1, size, ga, -gc);
    RoomForCoefficients(t + 1, size, gb, -gd);
    if full {
      SSub(size + 1, a, c);
    }
    SSub(size + 1, b, d);
  }

  // ----- the inverse

  /** The coefficient that has come out, made a number below the modulus. */
  method Normalize(size: nat, x: array<mpw>, xo: nat, d: array<mpw>, ghost gd: int)
    requires 0 < size && xo + size <= x.Length && d.Length > size && d != x
    requires Val(x[xo..xo + size]) > 0 && SVal(d[0..size + 1]) == gd
    modifies d
    ensures var X := Val(x[xo..xo + size]);
            && Val(d[0..size + 1]) <= X && Rem(Val(d[0..size + 1]), X) == Rem(gd, X)
            && (gd < 0 ==> Val(d[0..size + 1]) < X)
  {
    hide Val, P, SVal, Rem;
    SValDefinition(d[0..size + 1], gd);
    ghost var j: int;
    if d[0] >= W / 2 {
      j := RaiseNegative(size, x, xo, d, gd);
    } else {
      j := LowerPositive(size, x, xo, d, gd);
    }
    RemPlus(gd, Val(x[xo..xo + size]), j);
  }

  /** Keeps adding the modulus until there is a carry. */
  method RaiseNegative(size: nat, x: array<mpw>, xo: nat, d: array<mpw>, ghost gd: int) returns (ghost j: int)
    requires 0 < size && xo + size <= x.Length && d.Length > size && d != x
    requires Val(x[xo..xo + size]) > 0 && gd < 0 && Val(d[0..size + 1]) == gd + P(size + 1)
    modifies d
    ensures Val(d[0..size + 1]) == gd + j * Val(x[xo..xo + size]) < Val(x[xo..xo + size])
  {
    hide Val, P;
    var n := size + 1;
    ghost var xs, X, p := x[xo..xo + size], Val(x[xo..xo + size]), P(size + 1);
    ResizedShort(n, xs);
    j := 0;
    var carry := 0;
    while carry == 0
      invariant carry == 0 || carry == 1
      invariant x[xo..xo + size] == xs
      invariant Val(d[0..n]) == gd + j * X + (if carry == 0 then p else 0)
      invariant gd + j * X < X && (carry == 0 ==> gd + j * X < 0)
      decreases 1 - carry, p - Val(d[0..n])
    {
      carry := MpAddx(n, d, 0, size, x, xo);
      MulSum(j, 1, X);
      j := j + 1;
      ValBound(d[0..n]);
    }
  }

  /** Keeps subtracting the modulus while the number exceeds it. */
  method LowerPositive(size: nat, x: array<mpw>, xo: nat, d: array<mpw>, ghost gd: int) returns (ghost j: int)
    requires 0 < size && xo + size <= x.Length && d.Length > size && d != x
    requires Val(x[xo..xo + size]) > 0 && Val(d[0..size + 1]) == gd
    modifies d
    ensures Val(d[0..size + 1]) == gd + j * Val(x[xo..xo + size]) <= Val(x[xo..xo + size])
  {
    hide Val, P;
    var n := size + 1;
    ghost var xs, X := x[xo..xo + size], Val(x[xo..xo + size]);
    ResizedShort(n, xs);
    j := 0;
    var more := MpGtx(n, d, 0, size, x, xo);
    while more
      invariant x[xo..xo + size] == xs
      invariant Val(d[0..n]) == gd + j * X
      invariant more <==> Val(d[0..n]) > X
      decreases Val(d[0..n])
    {
      ghost var v := Val(d[0..n]);
      ghost var borrow := MpSubx(n, d, 0, size, x, xo);
      NoBorrowAtAll(d[0..n], v - X, borrow);
      MulDiff(j, 1, X);
      j := j - 1;
      more := MpGtx(n, d, 0, size, x, xo);
    }
  }

  lemma SValDefinition(s: seq<mpw>, g: int)
    requires |s| > 0 && SVal(s) == g
    ensures if s[0] >= W / 2 then g < 0 && Val(s) == g + P(|s|) else g >= 0 && Val(s) == g
  {
    hide Val, P;
    ValBound(s);
  }

  lemma SmallSVal(s: seq<mpw>)
    requires |s| > 0 && 2 * Val(s) < P(|s|)
    ensures SVal(s) == Val(s)
  {
    hide Val, P;
    SValUnique(s, Val(s), 0);
  }

  /** The setup before the first round. */
  method Prepare(size: nat, w: Work, x: array<mpw>, xo: nat, y: array<mpw>, yo: nat, ghost result: array<mpw>)
      returns (full: bool)
    requires 0 < size && xo + size <= x.Length && yo + size <= y.Length && w.Separate(size, x, y, result)
    modifies w.u, w.v, w.a, w.b, w.c, w.d
    ensures full <==> Val(x[xo..xo + size]) % 2 == 0
    ensures Holds(w, size + 1, full, Values(Val(x[xo..xo + size]), Val(y[yo..yo + size]), 1, 0, 0, 1))
  {
    hide Val, P, SVal;
    var n := size + 1;
    ghost var xs, ys := x[xo..xo + size], y[yo..yo + size];
    ResizedShort(n, xs);
    ResizedShort(n, ys);
    PMono(1, n);
    PSucc(0);
    MpSetx(n, w.u, 0, size, x, xo);
    MpSetx(n, w.v, 0, size, y, yo);
    MpZero(n, w.b, 0);
    MpSetw(n, w.d, 0, 1);
    SmallSVal(w.b[0..n]);
    SmallSVal(w.d[0..n]);
    OddNumber(w.u[0..n]);
    full := w.u[size] % 2 == 0;
    if full {
      MpSetw(n, w.a, 0, 1);
      MpZero(n, w.c, 0);
      SmallSVal(w.a[0..n]);
      SmallSVal(w.c[0..n]);
    }
  }

  /** Inverts y modulo x. Tells whether there is an inverse, and only then writes it. */
  method MpExtGcdW(size: nat, x: array<mpw>, xo: nat, y: array<mpw>, yo: nat, result: array<mpw>, ro: nat, w: Work)
      returns (ok: bool)
    requires 0 < size <= 0x1_0000_0000_0000
    requires xo + size <= x.Length && yo + size <= y.Length && ro + size <= result.Length
    requires w.Separate(size, x, y, result)
    requires Val(x[xo..xo + size]) > 0 && Val(y[yo..yo + size]) > 0
    requires Val(x[xo..xo + size]) % 2 == 1 || Val(y[yo..yo + size]) % 2 == 1
    modifies result, w.u, w.v, w.a, w.b, w.c, w.d
    ensures ok <==> Gcd(Val(x[xo..xo + size]), Val(y[yo..yo + size])) == 1
    ensures ok ==> IsInverse(Val(result[ro..ro + size]), Val(y[yo..yo + size]), Val(x[xo..xo + size]))
    ensures !ok ==> result[..] == old(result[..])
    ensures Framed(result, ro, ro + size)
  {
    hide Val, P, SVal, Gcd, RoundInvariant, Halved, IsInverse, Combined;
    ghost var xs, ys := x[xo..xo + size], y[yo..yo + size];
    ghost var X, Y := Val(xs), Val(ys);
    var full := Prepare(size, w, x, xo, y, yo, result);
    FirstRound(X, Y, size);
    ghost var s, t := Values(X, Y, 1, 0, 0, 1), 0;
    var done := false;
    while !done
      invariant x[xo..xo + size] == xs && y[yo..yo + size] == ys
      invariant Holds(w, size + 1, full, s) && Combined(s, X, Y)
      invariant if done then s.u == 0 else RoundInvariant(s, X, Y, t, size) && s.v > 0
      invariant result[..] == old(result[..])
      decreases !done, s.u + s.v
    {
      ghost var h := HalveBoth(size, full, w, x, xo, y, yo, result, s, t);
      HalvedParts(h, X, Y, t, size);
      Subtract(size, full, w, x, y, result, h, t);
      AfterSubtraction(h, X, Y, t, size);
      s, t := Subtracted(h), t + 1;
      done := MpZ(size + 1, w.u, 0);
    }
    LastRound(s, X, Y);
    ok := MpIsOne(size + 1, w.v, 0);
    if ok {
      Normalize(size, x, xo, w.d, s.d);
      MpSetx(size, result, ro, size + 1, w.d, 0);
      Inverted(s, w.d[0..size + 1], Val(result[ro..ro + size]), xs, Y);
    }
  }

  lemma HalvedParts(h: Values, x: nat, y: nat, t: nat, size: nat)
    requires Halved(h, x, y, t, size)
    ensures Small(h.a, h.b, false, t + 1, size) && Small(h.c, h.d, false, t + 1, size)
    ensures Combined(h, x, y) && h.u > 0 && h.v > 0
  {
  }

  lemma LastRound(s: Values, x: nat, y: nat)
    requires Combined(s, x, y) && s.u == 0
    ensures s.v == Gcd(x, y) > 0
  {
    hide Gcd;
    GcdEnd(s.v);
  }

  /** r inverts y modulo x, and is reduced. */
  ghost predicate IsInverse(r: nat, y: nat, x: nat)
    requires x > 0
  {
    && Rem(r * y, x) == Rem(1, x) && r <= x
    && (x > 1 ==> 0 < r < x)
  }

  lemma Inverted(s: Values, d: seq<mpw>, r: nat, xs: seq<mpw>, y: nat)
    requires Val(xs) > 0 && |d| == |xs| + 1 && r == Resized(|xs|, d)
    requires Combined(s, Val(xs), y) && s.v == 1
    requires Val(d) <= Val(xs) && Rem(Val(d), Val(xs)) == Rem(s.d, Val(xs))
    ensures IsInverse(r, y, Val(xs))
  {
    hide Val, P, Rem, Resized;
    var x := Val(xs);
    ValBound(xs);
    ResizedIsMod(|xs|, d);
    RemMul(r, s.d, y, y, x);
    RemPlus(s.d * y, x, s.c);
    RemPlus(0, x, y);
    assert x * y == y * x;
    if x > 1 {
      RemSmall(1, x);
      RemSmall(0, x);
      assert r != 0 && r != x;
    }
  }
}
