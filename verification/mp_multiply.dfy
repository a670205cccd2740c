/** Multiplication and squaring of multi-precision numbers (mp.c). */
module MpMultiply {
  import opened Arith
  import opened Words
  import opened MpShift

  /** result := data * y, the word that does not fit is returned. */
  method MpSetMul(size: nat, result: array<mpw>, ro: nat, data: array<mpw>, o: nat, y: mpw) returns (carry: mpw)
    requires ro + size <= result.Length && o + size <= data.Length
    requires Apart(result, ro, size, data, o, size)
    modifies result
    ensures Val(result[ro..ro + size]) + carry * P(size) == old(Val(data[o..o + size])) * y
    ensures Framed(result, ro, ro + size)
  {
    hide Val, P;
    ghost var D := data[o..o + size];
    carry := 0;
    var i := size;
    ProductEmpty(result[ro + i..ro + size], D[i..], y);
    while i > 0
      invariant 0 <= i <= size
      invariant Val(result[ro + i..ro + size]) + carry * P(size - i) == Val(D[i..]) * y
      invariant Kept(result, ro + i, ro + size)
    {
      ghost var tail, c := result[ro + i..ro + size], carry;
      i := i - 1;
      WordProduct(data[o + i], y);
      var temp := data[o + i] as int * y as int + carry as int;
      result[ro + i] := Lo(temp);
      carry := Hi(temp);
      assert result[ro + i..ro + size] == [Lo(temp)] + tail;
      Carry(Lo(temp), tail, c, carry, D[i] as int * y as int, Val(D[i + 1..]) * y);
      ProductStep(D, i, y);
    }
    assert D[0..] == D;
    FrameWindows(old(result[..]), result[..], ro, ro + size);
  }

  lemma ProductEmpty(s: seq<mpw>, t: seq<mpw>, y: int)
    requires |s| == |t| == 0
    ensures Val(s) + 0 * P(0) == Val(t) * y
    ensures Val(s) == 0 && Val(t) == 0
  {
  }

  lemma ProductStep(D: seq<mpw>, i: nat, y: int)
    requires i < |D|
    ensures Val(D[i..]) * y == Val(D[i + 1..]) * y + (D[i] as int * y) * P(|D| - i - 1)
  {
    hide Val, P;
    ValCons(D[i..]);
    assert D[i..][1..] == D[i + 1..];
    var p := P(|D| - i - 1);
    assert (D[i] * p + Val(D[i + 1..])) * y == (D[i] as int * y) * p + Val(D[i + 1..]) * y;
  }

  /** result += data * y, the word that does not fit is returned. */
  method MpAddMul(size: nat, result: array<mpw>, ro: nat, data: array<mpw>, o: nat, y: mpw) returns (carry: mpw)
    requires ro + size <= result.Length && o + size <= data.Length
    requires Apart(result, ro, size, data, o, size)
    modifies result
    ensures Val(result[ro..ro + size]) + carry * P(size) ==
            old(Val(result[ro..ro + size])) + old(Val(data[o..o + size])) * y
    ensures Framed(result, ro, ro + size)
  {
    hide Val, P;
    ghost var D, R := data[o..o + size], result[ro..ro + size];
    carry := 0;
    var i := size;
    ProductEmpty(result[ro + i..ro + size], D[i..], y);
    ValEmpty(R[i..]);
    while i > 0
      invariant 0 <= i <= size
      invariant Val(result[ro + i..ro + size]) + carry * P(size - i) == Val(R[i..]) + Val(D[i..]) * y
      invariant Kept(result, ro + i, ro + size)
    {
      ghost var tail, c := result[ro + i..ro + size], carry;
      i := i - 1;
      WordProduct(data[o + i], y);
      var temp := data[o + i] as int * y as int + carry as int + result[ro + i] as int;
      result[ro + i] := Lo(temp);
      carry := Hi(temp);
      assert result[ro + i..ro + size] == [Lo(temp)] + tail;
      AccumulateStep(D, R, i, y, Lo(temp), tail, c, carry);
    }
    assert D[0..] == D && R[0..] == R;
    FrameWindows(old(result[..]), result[..], ro, ro + size);
  }

  lemma AccumulateStep(D: seq<mpw>, R: seq<mpw>, i: nat, y: mpw, z: mpw, tail: seq<mpw>, c: int, c': int)
    requires i < |D| == |R| && |tail| == |D| - i - 1
    requires z as int + c' * W == D[i] as int * y as int + R[i] as int + c
    requires Val(tail) + c * P(|tail|) == Val(R[i + 1..]) + Val(D[i + 1..]) * y
    ensures Val([z] + tail) + c' * P(|tail| + 1) == Val(R[i..]) + Val(D[i..]) * y
  {
    hide Val, P;
    var t, r: int := D[i] as int * y as int, R[i];
    ProductStep(D, i, y);
    ValCons(R[i..]);
    assert R[i..][1..] == R[i + 1..];
    Carry(z, tail, c, c', t + r, Val(R[i + 1..]) + Val(D[i + 1..]) * y);
    MulSum(t, r, P(|tail|));
  }

  /** One row of schoolbook multiplication: the n top words of R gain m, and the carry
      becomes a new top word. */
  lemma Row(R: seq<mpw>, Z: seq<mpw>, n: nat, rc: mpw, m: int)
    requires n <= |R| && |Z| == |R|
    requires Z[n..] == R[n..]
    requires Val(Z[..n]) + rc * P(n) == Val(R[..n]) + m
    ensures Val([rc] + Z) == Val(R) + m * P(|R| - n)
  {
    hide Val, P;
    var p := P(|R| - n);
    ValSplit(R, n);
    ValSplit(Z, n);
    ValCons([rc] + Z);
    assert ([rc] + Z)[1..] == Z;
    PAdd(n, |R| - n);
    assert (Val(Z[..n]) + rc * P(n)) * p == (Val(R[..n]) + m) * p;
    assert rc * (P(n) * p) == (rc * P(n)) * p;
  }

  /** A row in front of nothing yet: the product with w, and its carry word in front. */
  method SetRow(n: nat, result: array<mpw>, ro: nat, data: array<mpw>, o: nat, w: mpw)
    requires 0 < ro && ro + n <= result.Length && o + n <= data.Length
    requires Apart(result, ro - 1, n + 1, data, o, n)
    modifies result
    ensures Val(result[ro - 1..ro + n]) == old(Val(data[o..o + n])) * w
    ensures Framed(result, ro - 1, ro + n)
  {
    hide Val, P;
    var rc := MpSetMul(n, result, ro, data, o, w);
    result[ro - 1] := rc;
    ghost var Z := result[ro - 1..ro + n];
    assert Z[1..] == result[ro..ro + n];
    ValCons(Z);
    FrameWindows(old(result[..]), result[..], ro - 1, ro + n);
  }

  /** A further row: the product with w is added, and its carry word goes in front. The number that
      is built up ends at index end. */
  method AddRow(n: nat, result: array<mpw>, ro: nat, ghost end: nat, data: array<mpw>, o: nat, w: mpw)
    requires 0 < ro && ro + n <= end <= result.Length && o + n <= data.Length
    requires Apart(result, ro - 1, n + 1, data, o, n)
    modifies result
    ensures Val(result[ro - 1..end]) ==
            old(Val(result[ro..end])) + (old(Val(data[o..o + n])) * w) * P(end - ro - n)
    ensures Framed(result, ro - 1, ro + n)
  {
    hide Val, P;
    ghost var R, m := result[ro..end], Val(data[o..o + n]) * w;
    assert R[..n] == result[ro..ro + n];
    var rc := MpAddMul(n, result, ro, data, o, w);
    ghost var Z := result[ro..end];
    assert Z[..n] == result[ro..ro + n] && Z[n..] == R[n..];
    result[ro - 1] := rc;
    assert result[ro - 1..end] == [rc] + Z;
    Row(R, Z, n, rc, m);
    FrameWindows(old(result[..]), result[..], ro - 1, ro + n);
  }

  method MpMul(result: array<mpw>, ro: nat, xsize: nat, x: array<mpw>, xo: nat, ysize: nat, y: array<mpw>, yo: nat)
    requires 0 < xsize && 0 < ysize
    requires ro + xsize + ysize <= result.Length && xo + xsize <= x.Length && yo + ysize <= y.Length
    requires result != x && result != y
    modifies result
    ensures Val(result[ro..ro + xsize + ysize]) == old(Val(x[xo..xo + xsize])) * old(Val(y[yo..yo + ysize]))
    ensures Framed(result, ro, ro + xsize + ysize)
  {
    if xsize >= ysize {
      MultiplyRows(result, ro, xsize, x, xo, ysize, y, yo);
    } else {
      MultiplyRows(result, ro, ysize, y, yo, xsize, x, xo);
      assert ro + xsize + ysize == ro + ysize + xsize;
    }
  }

  /** A row of x times a word of y, from the least significant word of y upwards. */
  method MultiplyRows(result: array<mpw>, ro: nat, xsize: nat, x: array<mpw>, xo: nat,
                      ysize: nat, y: array<mpw>, yo: nat)
    requires 0 < ysize
    requires ro + xsize + ysize <= result.Length && xo + xsize <= x.Length && yo + ysize <= y.Length
    requires result != x && result != y
    modifies result
    ensures Val(result[ro..ro + xsize + ysize]) == old(Val(x[xo..xo + xsize])) * old(Val(y[yo..yo + ysize]))
    ensures Framed(result, ro, ro + xsize + ysize)
  {
    hide Val, P;
    ghost var X, Y, end := x[xo..xo + xsize], y[yo..yo + ysize], ro + ysize + xsize;
    var n := ysize - 1;
    SetRow(xsize, result, ro + n + 1, x, xo, y[yo + n]);
    ValOne(Y[n..]);
    while n > 0
      invariant 0 <= n < ysize
      invariant Val(result[ro + n..end]) == Val(X) * Val(Y[n..])
      invariant Kept(result, ro + n, end)
    {
      assert X == x[xo..xo + xsize] && Y[n - 1] == y[yo + n - 1];
      n := n - 1;
      AddRow(xsize, result, ro + n + 1, end, x, xo, y[yo + n]);
      ProductRow(X, Y, n);
    }
    assert Y[0..] == Y;
    FrameWindows(old(result[..]), result[..], ro, ro + xsize + ysize);
  }

  lemma ProductRow(X: seq<mpw>, Y: seq<mpw>, n: nat)
    requires n < |Y|
    ensures Val(X) * Val(Y[n..]) == Val(X) * Val(Y[n + 1..]) + (Val(X) * Y[n]) * P(|Y| - n - 1)
  {
    hide Val, P;
    ProductStep(Y, n, Val(X));
    assert (Y[n] as int * Val(X)) == Val(X) * Y[n];
  }

  // ----- squaring

  /** The products of two different words of s, each pair once. */
  function OffDiagonal(s: seq<mpw>): (v: nat) {
    if |s| == 0 then 0
    else
      var t := s[..|s| - 1];
      OffDiagonal(t) * (W * W) + Val(t) * s[|s| - 1] * W
  }

  /** The squares of the words of s. */
  function Diagonal(s: seq<mpw>): (v: nat) {
    if |s| == 0 then 0
    else Diagonal(s[..|s| - 1]) * (W * W) + s[|s| - 1] as int * s[|s| - 1] as int
  }

  lemma {:induction false} SquareSplit(s: seq<mpw>)
    ensures Val(s) * Val(s) == 2 * OffDiagonal(s) + Diagonal(s)
  {
    if |s| > 0 {
      var t, w: int := s[..|s| - 1], s[|s| - 1];
      SquareSplit(t);
      var v: int := Val(t);
      SquareOfSum(v, w);
    }
  }

  lemma SquareOfSum(v: int, w: int)
    ensures (v * W + w) * (v * W + w) == (v * v) * (W * W) + 2 * (v * w * W) + w * w
  {
    calc {
      (v * W + w) * (v * W + w);
      (v * W) * (v * W) + 2 * ((v * W) * w) + w * w;
      (v * v) * (W * W) + 2 * (v * w * W) + w * w;
    }
  }

  lemma {:induction false} DiagonalConcat(s: seq<mpw>, t: seq<mpw>)
    ensures Diagonal(s + t) == Diagonal(s) * P(2 * |t|) + Diagonal(t)
  {
    hide P;
    PSucc(0);
    if |t| == 0 {
      assert s + t == s;
    } else {
      var t' := t[..|t| - 1];
      assert (s + t)[..|s + t| - 1] == s + t';
      DiagonalConcat(s, t');
      PSucc(2 * |t'|);
      PSucc(2 * |t'| + 1);
      var d: int, p := Diagonal(s), P(2 * |t'|);
      assert P(2 * |t|) == W * W * p;
      assert (d * p) * (W * W) == d * (W * W * p);
    }
  }

  lemma DiagonalStep(s: seq<mpw>, i: nat)
    requires i < |s|
    ensures Diagonal(s[i..]) == (s[i] as int * s[i] as int) * P(2 * (|s| - i - 1)) + Diagonal(s[i + 1..])
  {
    assert s[i..] == [s[i]] + s[i + 1..];
    DiagonalConcat([s[i]], s[i + 1..]);
    assert Diagonal([s[i]]) == s[i] as int * s[i] as int by {
      assert [s[i]][..0] == [];
    }
  }

  /** What the rows below n contribute to the off-diagonal sum. */
  lemma OffDiagonalRow(s: seq<mpw>, n: nat)
    requires n < |s|
    ensures OffDiagonal(s[..n + 1]) * P(2 * (|s| - n - 1)) ==
            OffDiagonal(s[..n]) * P(2 * (|s| - n)) + (Val(s[..n]) * s[n]) * P(2 * (|s| - n) - 1)
  {
    hide Val, P;
    assert s[..n + 1][..n] == s[..n];
    var k := 2 * (|s| - n - 1);
    var a: int, m: int, p := OffDiagonal(s[..n]), Val(s[..n]) * s[n], P(k);
    PSucc(k);
    PSucc(k + 1);
    assert OffDiagonal(s[..n + 1]) == a * (W * W) + m * W;
    assert (a * (W * W) + m * W) * p == a * (W * (W * p)) + m * (W * p);
  }

  /** result += the squares of the words of data, two result words for each. */
  method MpAddSqrTrc(size: nat, result: array<mpw>, ro: nat, data: array<mpw>, o: nat)
    requires ro + 2 * size <= result.Length && o + size <= data.Length
    requires result != data
    requires Val(result[ro..ro + 2 * size]) + Diagonal(data[o..o + size]) < P(2 * size)
    modifies result
    ensures Val(result[ro..ro + 2 * size]) ==
            old(Val(result[ro..ro + 2 * size])) + old(Diagonal(data[o..o + size]))
    ensures Framed(result, ro, ro + 2 * size)
  {
    hide Val, P, Diagonal;
    ghost var R, D, end := result[ro..ro + 2 * size], data[o..o + size], ro + 2 * size;
    var carry: mpw := 0;
    var i, p := size, ro + 2 * size;
    NoSquares(result[p..end], R[2 * i..], D[i..]);
    while i > 0
      invariant 0 <= i <= size && p == ro + 2 * i
      invariant Val(result[p..end]) + carry * P(end - p) == Val(R[2 * i..]) + Diagonal(D[i..])
      invariant Kept(result, p, end)
    {
      ghost var tail, c := result[p..end], carry;
      i, p := i - 1, p - 2;
      carry := AddSquare(result, p, data[o + i], carry);
      assert tail == result[p + 2..end];
      assert result[p..end] == [result[p]] + ([result[p + 1]] + result[p + 2..end]);
      SquareStep(R, D, i, tail, c, result[p + 1], result[p], carry);
    }
    assert R[0..] == R && D[0..] == D;
    NoCarry(result[ro..end], carry, Val(R) + Diagonal(D));
    FrameWindows(old(result[..]), result[..], ro, ro + 2 * size);
  }

  lemma NoSquares(s: seq<mpw>, t: seq<mpw>, d: seq<mpw>)
    requires |s| == |t| == |d| == 0
    ensures Val(s) + 0 * P(0) == Val(t) + Diagonal(d)
    ensures Val(s) == Val(t) == Diagonal(d) == 0
  {
  }

  lemma NoCarry(s: seq<mpw>, carry: mpw, v: int)
    requires Val(s) + carry * P(|s|) == v < P(|s|)
    ensures Val(s) == v
  {
    hide Val, P;
    if carry > 0 {
      MulPos(carry, P(|s|));
    }
  }

  /** Adds w * w and the carry to the two words at index p. */
  method AddSquare(result: array<mpw>, p: nat, w: mpw, carry: mpw) returns (carry': mpw)
    requires p + 1 < result.Length
    modifies result
    ensures result[p + 1] as int + result[p] * W + carry' * (W * W) ==
            w as int * w as int + carry as int + old(result[p + 1]) as int + old(result[p]) * W
    ensures Framed(result, p, p + 2)
  {
    WordProduct(w, w);
    var temp := w as int * w as int + carry as int + result[p + 1] as int;
    result[p + 1] := Lo(temp);
    var temp' := Hi(temp) as int + result[p] as int;
    result[p] := Lo(temp');
    carry' := Hi(temp');
    FrameWindows(old(result[..]), result[..], p, p + 2);
  }

  lemma SquareStep(R: seq<mpw>, D: seq<mpw>, i: nat, tail: seq<mpw>, c: int, lo: mpw, hi: mpw, c': int)
    requires i < |D| && |R| == 2 * |D| && |tail| == 2 * (|D| - i - 1)
    requires lo as int + hi * W + c' * (W * W) ==
             D[i] as int * D[i] as int + c + R[2 * i + 1] as int + R[2 * i] * W
    requires Val(tail) + c * P(|tail|) == Val(R[2 * i + 2..]) + Diagonal(D[i + 1..])
    ensures Val([hi] + ([lo] + tail)) + c' * P(|tail| + 2) == Val(R[2 * i..]) + Diagonal(D[i..])
  {
    hide Val, P, Diagonal;
    var q: int, r1: int, r0: int := D[i] as int * D[i] as int, R[2 * i + 1], R[2 * i];
    var h := hi as int + c' * W - r0;
    var f := Val(R[2 * i + 2..]) + Diagonal(D[i + 1..]);
    Carry(lo, tail, c, h, q + r1, f);
    MulSum(q, r1, P(|tail|));
    Carry(hi, [lo] + tail, h, c', r0, f + (q + r1) * P(|tail|));
    DiagonalStep(D, i);
    assert R[2 * i..][1..] == R[2 * i + 1..] && R[2 * i + 1..][1..] == R[2 * i + 2..];
    ValCons(R[2 * i..]);
    ValCons(R[2 * i + 1..]);
  }

  method MpSqr(result: array<mpw>, ro: nat, size: nat, data: array<mpw>, o: nat)
    requires 0 < size
    requires ro + 2 * size <= result.Length && o + size <= data.Length
    requires result != data
    modifies result
    ensures Val(result[ro..ro + 2 * size]) == old(Val(data[o..o + size])) * old(Val(data[o..o + size]))
    ensures Framed(result, ro, ro + 2 * size)
  {
    hide Val, P, Diagonal, OffDiagonal;
    ghost var D, end := data[o..o + size], ro + 2 * size;
    OffDiagonalProducts(result, ro, size, data, o);
    SquareSplit(D);
    ValBound(D);
    MulBound(Val(D), Val(D), P(size) - 1, P(size) - 1);
    PAdd(size, size);
    SquareBelow(P(size));
    ghost var V := result[ro..end];
    var carry := MpMulTwo(2 * size, result, ro);
    NoCarry(result[ro..end], carry, 2 * OffDiagonal(D));
    assert D == data[o..o + size];
    MpAddSqrTrc(size, result, ro, data, o);
  }

  /** The part of mpsqr that comes before the doubling. */
  method OffDiagonalProducts(result: array<mpw>, ro: nat, size: nat, data: array<mpw>, o: nat)
    requires 0 < size
    requires ro + 2 * size <= result.Length && o + size <= data.Length
    requires result != data
    modifies result
    ensures Val(result[ro..ro + 2 * size]) == old(OffDiagonal(data[o..o + size]))
    ensures Framed(result, ro, ro + 2 * size)
  {
    hide Val, P, OffDiagonal, AboveRow;
    ghost var D, end := data[o..o + size], ro + 2 * size;
    var n := size - 1;
    result[ro + size + n] := 0;
    if n > 0 {
      FirstOffDiagonalRow(result, ro, size, data, o);
      while n > 1
        invariant 0 < n < size
        invariant AboveRow(D, n, Val(result[ro + n..end]))
        invariant Kept(result, ro + n, end)
      {
        n := n - 1;
        assert D[..n] == data[o..o + n] && D[n] == data[o + n];
        ghost var v := Val(result[ro + n + 1..end]);
        AddRow(n, result, ro + n + 1, end, data, o, data[o + n]);
        NextRow(D, n, v, Val(result[ro + n..end]));
      }
    } else {
      ValOne(result[ro + 1..end]);
      SingleWord(D);
    }
    LastRow(D, Val(result[ro + 1..end]));
    ghost var low := result[ro + 1..end];
    result[ro] := 0;
    assert result[ro + 1..end] == low && result[ro..end] == [0] + low;
    ValZeroCons(low);
    FrameWindows(old(result[..]), result[..], ro, ro + 2 * size);
  }

  lemma ValZeroCons(s: seq<mpw>)
    ensures Val([0] + s) == Val(s)
  {
    hide Val, P;
    ValCons([0] + s);
    assert ([0] + s)[1..] == s;
  }

  /** v is what the rows from n on contribute to the off-diagonal sum. */
  ghost predicate AboveRow(D: seq<mpw>, n: nat, v: int)
    requires n <= |D|
  {
    v + OffDiagonal(D[..n]) * P(2 * (|D| - n)) == OffDiagonal(D)
  }

  lemma NextRow(D: seq<mpw>, n: nat, v: int, v': int)
    requires n < |D| && AboveRow(D, n + 1, v)
    requires v' == v + (Val(D[..n]) * D[n]) * P(2 * (|D| - n) - 1)
    ensures AboveRow(D, n, v')
  {
    hide Val, P, OffDiagonal;
    OffDiagonalRow(D, n);
  }

  lemma LastRow(D: seq<mpw>, v: int)
    requires |D| > 0 && AboveRow(D, 1, v)
    ensures v == OffDiagonal(D)
  {
    hide P, OffDiagonal;
    NoPairs(D[..1]);
  }

  lemma SingleWord(D: seq<mpw>)
    requires |D| == 1
    ensures AboveRow(D, 1, 0)
  {
    assert D[..1] == D;
    NoPairs(D);
  }

  lemma NoPairs(s: seq<mpw>)
    requires |s| == 1
    ensures OffDiagonal(s) == 0
  {
    assert s[..0] == [];
  }

  method FirstOffDiagonalRow(result: array<mpw>, ro: nat, size: nat, data: array<mpw>, o: nat)
    requires 1 < size
    requires ro + 2 * size <= result.Length && o + size <= data.Length
    requires result != data
    requires result[ro + 2 * size - 1] == 0
    modifies result
    ensures AboveRow(old(data[o..o + size]), size - 1, Val(result[ro + size - 1..ro + 2 * size]))
    ensures Framed(result, ro + size - 1, ro + 2 * size)
  {
    hide Val, P, OffDiagonal;
    ghost var D := data[o..o + size];
    var n := size - 1;
    assert D[..n] == data[o..o + n];
    SetRow(n, result, ro + size, data, o, data[o + n]);
    ghost var Z := result[ro + n..ro + 2 * size];
    ValSnoc(Z);
    assert Z[..|Z| - 1] == result[ro + n..ro + size + n];
    OffDiagonalRow(D, n);
    OffDiagonalAll(D);
    PSucc(0);
  }

  lemma OffDiagonalAll(D: seq<mpw>)
    ensures OffDiagonal(D[..|D|]) * P(0) == OffDiagonal(D)
  {
    hide OffDiagonal;
    assert D[..|D|] == D;
  }
}
