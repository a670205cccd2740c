/** Setting, adding and subtracting multi-precision numbers in place (mp.c). */
module MpAddSub {
  import opened Arith
  import opened Words

  // ----- copying

  method MpCopy(size: nat, x: array<mpw>, xo: nat, y: array<mpw>, yo: nat)
    requires xo + size <= x.Length && yo + size <= y.Length
    modifies x
    ensures x[xo..xo + size] == old(y[yo..yo + size])
    ensures Framed(x, xo, xo + size)
  {
    forall i | xo <= i < xo + size {
      x[i] := y[yo + i - xo];
    }
    FrameWindows(old(x[..]), x[..], xo, xo + size);
  }

  method MpZero(size: nat, x: array<mpw>, xo: nat)
    requires xo + size <= x.Length
    modifies x
    ensures Val(x[xo..xo + size]) == 0
    ensures Framed(x, xo, xo + size)
  {
    hide Val, P;
    var i := 0;
    while i < size
      invariant i <= size
      invariant forall j :: xo <= j < xo + i ==> x[j] == 0
      invariant Kept(x, xo, xo + i)
    {
      x[xo + i] := 0;
      i := i + 1;
    }
    ValZero(x[xo..xo + size]);
    FrameWindows(old(x[..]), x[..], xo, xo + size);
  }

  method MpSetw(size: nat, x: array<mpw>, xo: nat, y: mpw)
    requires 0 < size && xo + size <= x.Length
    modifies x
    ensures Val(x[xo..xo + size]) == y
    ensures Framed(x, xo, xo + size)
  {
    hide Val, P;
    var i := 0;
    while i < size - 1
      invariant i <= size - 1
      invariant forall j :: xo <= j < xo + i ==> x[j] == 0
      invariant Kept(x, xo, xo + i)
    {
      x[xo + i] := 0;
      i := i + 1;
    }
    x[xo + i] := y;
    ValSnoc(x[xo..xo + size]);
    ValZero(x[xo..xo + size][..size - 1]);
    FrameWindows(old(x[..]), x[..], xo, xo + size);
  }

  /** What a number of n words keeps of the word string y: the low words, padded with zeros. */
  ghost function Resized(n: nat, y: seq<mpw>): (r: nat)
  {
    if |y| <= n then Val(y) else Val(y[|y| - n..])
  }

  lemma ResizedParts(n: nat, y: seq<mpw>)
    ensures n > |y| ==> Resized(n, y) == Val(y)
    ensures n <= |y| ==> Resized(n, y) == Val(y[|y| - n..])
  {
    assert n == |y| ==> y[0..] == y;
  }

  lemma ResizedIsMod(n: nat, y: seq<mpw>)
    ensures Resized(n, y) == Val(y) % P(n)
    ensures Val(y) < P(n) ==> Resized(n, y) == Val(y)
  {
    hide Val, P;
    if |y| <= n {
      ValBound(y);
      PMono(|y|, n);
      DivModUnique(Val(y), P(n), 0, Val(y));
    } else {
      var d := |y| - n;
      ValSplit(y, d);
      ValBound(y[d..]);
      DivModUnique(Val(y), P(n), Val(y[..d]), Val(y[d..]));
      if Val(y[..d]) > 0 {
        MulPos(Val(y[..d]), P(n));
      }
    }
  }

  lemma Padded(X: seq<mpw>, pad: nat, Y: seq<mpw>, skip: nat)
    requires pad <= |X| && skip <= |Y|
    requires Val(X[..pad]) == 0
    requires X[pad..] == Y[skip..]
    requires skip == 0 || (pad == 0 && |X| == |Y| - skip)
    ensures Val(X) == Resized(|X|, Y)
  {
    hide Val, P;
    ValSplit(X, pad);
    assert X[0..] == X && Y[0..] == Y;
  }

  method MpSetx(xsize: nat, x: array<mpw>, xo: nat, ysize: nat, y: array<mpw>, yo: nat)
    requires xo + xsize <= x.Length && yo + ysize <= y.Length
    requires Apart(x, xo, xsize, y, yo, ysize)
    modifies x
    ensures Val(x[xo..xo + xsize]) == Resized(xsize, old(y[yo..yo + ysize]))
    ensures Framed(x, xo, xo + xsize)
  {
    hide Val, P, Resized;
    ghost var Y := y[yo..yo + ysize];
    var pad := if xsize > ysize then xsize - ysize else 0;
    var skip := if ysize > xsize then ysize - xsize else 0;
    MpZero(pad, x, xo);
    ghost var Z := x[xo..xo + pad];
    assert y[yo + skip..yo + skip + (xsize - pad)] == Y[skip..];
    MpCopy(xsize - pad, x, xo + pad, y, yo + skip);
    ghost var X := x[xo..xo + xsize];
    assert X[pad..] == x[xo + pad..xo + pad + (xsize - pad)] == Y[skip..];
    assert X[..pad] == x[xo..xo + pad] == Z;
    Padded(X, pad, Y, skip);
  }

  // ----- addition

  method MpAdd(size: nat, x: array<mpw>, xo: nat, y: array<mpw>, yo: nat) returns (carry: int)
    requires xo + size <= x.Length && yo + size <= y.Length
    requires ApartOrSame(x, xo, y, yo, size)
    modifies x
    ensures carry == 0 || carry == 1
    ensures Val(x[xo..xo + size]) + carry * P(size) == old(Val(x[xo..xo + size])) + old(Val(y[yo..yo + size]))
    ensures Framed(x, xo, xo + size)
  {
    hide Val, P;
    ghost var X, Y := x[xo..xo + size], y[yo..yo + size];
    carry := 0;
    var i := size;
    SumEmpty(x[xo + i..xo + size], X[i..], Y[i..]);
    while i > 0
      invariant 0 <= i <= size && (carry == 0 || carry == 1)
      invariant Val(x[xo + i..xo + size]) + carry * P(size - i) == Val(X[i..]) + Val(Y[i..])
      invariant Kept(x, xo + i, xo + size)
    {
      ghost var tail, c := x[xo + i..xo + size], carry;
      i := i - 1;
      var load := x[xo + i];
      var temp := WrapAdd(load, y[yo + i], carry);
      carry := if carry != 0 then Bit(load >= temp) else Bit(load > temp);
      x[xo + i] := temp;
      assert x[xo + i..xo + size] == [temp] + tail;
      SumStep(X[i..], Y[i..], tail, temp, c, carry);
    }
    assert X[0..] == X && Y[0..] == Y;
    FrameWindows(old(x[..]), x[..], xo, xo + size);
  }

  lemma SumEmpty(s: seq<mpw>, t: seq<mpw>, u: seq<mpw>)
    requires |s| == |t| == |u| == 0
    ensures Val(s) + 0 * P(0) == Val(t) + Val(u)
    ensures Val(s) == 0 && Val(t) == 0 && Val(u) == 0
  {
  }

  lemma SumStep(X: seq<mpw>, Y: seq<mpw>, tail: seq<mpw>, z: mpw, c: int, c': int)
    requires |X| == |Y| == |tail| + 1
    requires z as int + c' * W == X[0] as int + Y[0] as int + c
    requires Val(tail) + c * P(|tail|) == Val(X[1..]) + Val(Y[1..])
    ensures Val([z] + tail) + c' * P(|tail| + 1) == Val(X) + Val(Y)
  {
    hide Val, P;
    ValCons(X);
    ValCons(Y);
    Carry(z, tail, c, c', X[0] as int + Y[0] as int, Val(X[1..]) + Val(Y[1..]));
    assert (X[0] as int + Y[0] as int) * P(|tail|) == X[0] * P(|tail|) + Y[0] * P(|tail|);
  }

  /** Z with carry c is the sum of X and y. */
  ghost predicate Carried(Z: seq<mpw>, c: int, X: seq<mpw>, y: int) {
    Val(Z) + c * P(|Z|) == Val(X) + y
  }

  method MpAddw(size: nat, x: array<mpw>, xo: nat, y: mpw) returns (carry: int)
    requires 0 < size && xo + size <= x.Length
    modifies x
    ensures carry == 0 || carry == 1
    ensures Val(x[xo..xo + size]) + carry * P(size) == old(Val(x[xo..xo + size])) + y
    ensures Framed(x, xo, xo + size)
  {
    hide Val, P, Carried;
    ghost var X := x[xo..xo + size];
    var i := size - 1;
    var load := x[xo + i];
    var temp := WrapAdd(load, y, 0);
    x[xo + i] := temp;
    carry := Bit(load > temp);
    WordSum(X[i..], x[xo + i..xo + size], y, carry);
    while i > 0 && carry != 0
      invariant 0 <= i < size && (carry == 0 || carry == 1)
      invariant Carried(x[xo + i..xo + size], carry, X[i..], y)
      invariant Kept(x, xo + i, xo + size)
    {
      ghost var tail, c := x[xo + i..xo + size], carry;
      i := i - 1;
      load := x[xo + i];
      temp := WrapAdd(load, 1, 0);
      x[xo + i] := temp;
      carry := Bit(load > temp);
      assert x[xo + i..xo + size] == [temp] + tail;
      assert X[i..][0] == load && X[i..][1..] == X[i + 1..];
      CarryOn(X[i..], tail, temp, c, carry, y);
    }
    Windows(x, xo, xo + i, xo + size);
    Untouched(X, x[xo..xo + size], i, carry, y);
    FrameWindows(old(x[..]), x[..], xo, xo + size);
  }

  /** One more word that only takes part in the carry. */
  lemma CarryOn(X: seq<mpw>, tail: seq<mpw>, z: mpw, c: int, c': int, y: int)
    requires |X| == |tail| + 1
    requires z as int + c' * W == X[0] as int + c
    requires Carried(tail, c, X[1..], y)
    ensures Carried([z] + tail, c', X, y)
  {
    hide Val, P;
    ValCons(X);
    Carry(z, tail, c, c', X[0], Val(X[1..]) + y);
  }

  lemma WordSum(X: seq<mpw>, Z: seq<mpw>, y: int, c: int)
    requires |X| == |Z| == 1
    requires Z[0] as int + c * W == X[0] as int + y
    ensures Carried(Z, c, X, y)
  {
    ValOne(X);
    ValOne(Z);
  }

  /** When the carry has died out, the words above stay as they are. */
  lemma Untouched(X: seq<mpw>, Z: seq<mpw>, i: nat, c: int, y: int)
    requires |X| == |Z| && i < |X|
    requires forall j :: 0 <= j < i ==> Z[j] == X[j]
    requires Carried(Z[i..], c, X[i..], y)
    requires i > 0 ==> c == 0
    ensures Val(Z) + c * P(|Z|) == Val(X) + y
  {
    hide Val, P;
    if i > 0 {
      assert Z[..i] == X[..i];
      ValSplit(X, i);
      ValSplit(Z, i);
    } else {
      assert Z[0..] == Z && X[0..] == X;
    }
  }

  method MpAddx(xsize: nat, x: array<mpw>, xo: nat, ysize: nat, y: array<mpw>, yo: nat) returns (carry: int)
    requires xo + xsize <= x.Length && yo + ysize <= y.Length
    requires Apart(x, xo, xsize, y, yo, ysize)
    modifies x
    ensures carry == 0 || carry == 1
    ensures Val(x[xo..xo + xsize]) + carry * P(xsize) ==
            old(Val(x[xo..xo + xsize])) + Resized(xsize, old(y[yo..yo + ysize]))
    ensures Framed(x, xo, xo + xsize)
  {
    hide Val, P, Resized;
    ghost var Y := y[yo..yo + ysize];
    ResizedParts(xsize, Y);
    if xsize > ysize {
      var diff := xsize - ysize;
      ghost var mid, end, X := xo + diff, xo + xsize, x[xo..xo + xsize];
      Windows(x, xo, mid, end);
      var c := MpAdd(ysize, x, xo + diff, y, yo);
      ghost var M := x[xo..end];
      Windows(x, xo, mid, end);
      carry := MpAddw(diff, x, xo, c);
      Windows(x, xo, mid, end);
      TwoParts(X, M, x[xo..end], diff, ysize, c, carry, Val(Y));
    } else {
      var diff := ysize - xsize;
      assert Y[diff..] == y[yo + diff..yo + diff + xsize];
      carry := MpAdd(xsize, x, xo, y, yo + diff);
    }
  }

  /** The n low words are changed by t with carry c, then the d high words by c with carry c'. */
  lemma TwoParts(X: seq<mpw>, M: seq<mpw>, Z: seq<mpw>, d: nat, n: nat, c: int, c': int, t: int)
    requires |X| == |M| == |Z| == d + n
    requires M[..d] == X[..d] && Z[d..] == M[d..]
    requires Val(M[d..]) + c * P(n) == Val(X[d..]) + t
    requires Val(Z[..d]) + c' * P(d) == Val(M[..d]) + c
    ensures Val(Z) + c' * P(d + n) == Val(X) + t
  {
    hide Val, P;
    ValSplit(X, d);
    ValSplit(Z, d);
    PAdd(d, n);
    var p := P(n);
    MulSum(Val(Z[..d]), c' * P(d), p);
    MulSum(Val(X[..d]), c, p);
    MulAssoc(c', P(d), p);
  }

  // ----- subtraction

  method MpSub(size: nat, x: array<mpw>, xo: nat, y: array<mpw>, yo: nat) returns (carry: int)
    requires xo + size <= x.Length && yo + size <= y.Length
    requires ApartOrSame(x, xo, y, yo, size)
    modifies x
    ensures carry == 0 || carry == 1
    ensures Val(x[xo..xo + size]) == old(Val(x[xo..xo + size])) - old(Val(y[yo..yo + size])) + carry * P(size)
    ensures Framed(x, xo, xo + size)
  {
    hide Val, P;
    ghost var X, Y := x[xo..xo + size], y[yo..yo + size];
    carry := 0;
    var i := size;
    SumEmpty(x[xo + i..xo + size], X[i..], Y[i..]);
    while i > 0
      invariant 0 <= i <= size && (carry == 0 || carry == 1)
      invariant Val(x[xo + i..xo + size]) == Val(X[i..]) - Val(Y[i..]) + carry * P(size - i)
      invariant Kept(x, xo + i, xo + size)
    {
      ghost var tail, c := x[xo + i..xo + size], carry;
      i := i - 1;
      var load := x[xo + i];
      var temp := WrapSub(load, y[yo + i], carry);
      carry := if carry != 0 then Bit(load <= temp) else Bit(load < temp);
      x[xo + i] := temp;
      assert x[xo + i..xo + size] == [temp] + tail;
      DifferenceStep(X[i..], Y[i..], tail, temp, c, carry);
    }
    assert X[0..] == X && Y[0..] == Y;
    FrameWindows(old(x[..]), x[..], xo, xo + size);
  }

  lemma DifferenceStep(X: seq<mpw>, Y: seq<mpw>, tail: seq<mpw>, z: mpw, c: int, c': int)
    requires |X| == |Y| == |tail| + 1
    requires z as int == X[0] as int - Y[0] as int - c + c' * W
    requires Val(tail) == Val(X[1..]) - Val(Y[1..]) + c * P(|tail|)
    ensures Val([z] + tail) == Val(X) - Val(Y) + c' * P(|tail| + 1)
  {
    hide Val, P;
    // seen from the other side this is the sum z.. + Y == X
    assert ([z] + tail)[1..] == tail && [X[0]] + X[1..] == X;
    SumStep([z] + tail, Y, X[1..], X[0], c, c');
  }

  /** Z with borrow c is the difference of X and y. */
  ghost predicate Borrowed(Z: seq<mpw>, c: int, X: seq<mpw>, y: int) {
    Val(Z) == Val(X) - y + c * P(|Z|)
  }

  lemma AsCarried(Z: seq<mpw>, c: int, X: seq<mpw>, y: int)
    ensures Borrowed(Z, c, X, y) <==> Carried(Z, 0 - c, X, 0 - y)
  {
    hide Val, P;
    MulDiff(0, c, P(|Z|));
  }

  lemma BorrowOn(X: seq<mpw>, tail: seq<mpw>, z: mpw, c: int, c': int, y: int)
    requires |X| == |tail| + 1
    requires z as int == X[0] as int - c + c' * W
    requires Borrowed(tail, c, X[1..], y)
    ensures Borrowed([z] + tail, c', X, y)
  {
    hide Borrowed, Carried;
    AsCarried(tail, c, X[1..], y);
    CarryOn(X, tail, z, 0 - c, 0 - c', 0 - y);
    AsCarried([z] + tail, c', X, y);
  }

  lemma WordDifference(X: seq<mpw>, Z: seq<mpw>, y: int, c: int)
    requires |X| == |Z| == 1
    requires Z[0] as int == X[0] as int - y + c * W
    ensures Borrowed(Z, c, X, y)
  {
    ValOne(X);
    ValOne(Z);
  }

  lemma UntouchedLess(X: seq<mpw>, Z: seq<mpw>, i: nat, c: int, y: int)
    requires |X| == |Z| && i < |X|
    requires forall j :: 0 <= j < i ==> Z[j] == X[j]
    requires Borrowed(Z[i..], c, X[i..], y)
    requires i > 0 ==> c == 0
    ensures Val(Z) == Val(X) - y + c * P(|Z|)
  {
    hide Val, P, Borrowed, Carried;
    AsCarried(Z[i..], c, X[i..], y);
    Untouched(X, Z, i, 0 - c, 0 - y);
    MulDiff(0, c, P(|Z|));
  }

  method MpSubw(size: nat, x: array<mpw>, xo: nat, y: mpw) returns (carry: int)
    requires 0 < size && xo + size <= x.Length
    modifies x
    ensures carry == 0 || carry == 1
    ensures Val(x[xo..xo + size]) == old(Val(x[xo..xo + size])) - y + carry * P(size)
    ensures Framed(x, xo, xo + size)
  {
    hide Val, P, Borrowed;
    ghost var X := x[xo..xo + size];
    var i := size - 1;
    var load := x[xo + i];
    var temp := WrapSub(load, y, 0);
    x[xo + i] := temp;
    carry := Bit(load < temp);
    WordDifference(X[i..], x[xo + i..xo + size], y, carry);
    while i > 0 && carry != 0
      invariant 0 <= i < size && (carry == 0 || carry == 1)
      invariant Borrowed(x[xo + i..xo + size], carry, X[i..], y)
      invariant Kept(x, xo + i, xo + size)
    {
      ghost var tail, c := x[xo + i..xo + size], carry;
      i := i - 1;
      load := x[xo + i];
      temp := WrapSub(load, 1, 0);
      x[xo + i] := temp;
      carry := Bit(load < temp);
      assert x[xo + i..xo + size] == [temp] + tail;
      assert X[i..][0] == load && X[i..][1..] == X[i + 1..];
      BorrowOn(X[i..], tail, temp, c, carry, y);
    }
    Windows(x, xo, xo + i, xo + size);
    UntouchedLess(X, x[xo..xo + size], i, carry, y);
    FrameWindows(old(x[..]), x[..], xo, xo + size);
  }

  method MpSubx(xsize: nat, x: array<mpw>, xo: nat, ysize: nat, y: array<mpw>, yo: nat) returns (carry: int)
    requires xo + xsize <= x.Length && yo + ysize <= y.Length
    requires Apart(x, xo, xsize, y, yo, ysize)
    modifies x
    ensures carry == 0 || carry == 1
    ensures Val(x[xo..xo + xsize]) ==
            old(Val(x[xo..xo + xsize])) - Resized(xsize, old(y[yo..yo + ysize])) + carry * P(xsize)
    ensures Framed(x, xo, xo + xsize)
  {
    hide Val, P, Resized;
    ghost var Y := y[yo..yo + ysize];
    ResizedParts(xsize, Y);
    if xsize > ysize {
      var diff := xsize - ysize;
      ghost var mid, end, X := xo + diff, xo + xsize, x[xo..xo + xsize];
      Windows(x, xo, mid, end);
      var c := MpSub(ysize, x, xo + diff, y, yo);
      ghost var M := x[xo..end];
      Windows(x, xo, mid, end);
      carry := MpSubw(diff, x, xo, c);
      Windows(x, xo, mid, end);
      TwoPartsLess(X, M, x[xo..end], diff, ysize, c, carry, Val(Y));
    } else {
      var diff := ysize - xsize;
      assert Y[diff..] == y[yo + diff..yo + diff + xsize];
      carry := MpSub(xsize, x, xo, y, yo + diff);
    }
  }

  /** The same with borrows. */
  lemma TwoPartsLess(X: seq<mpw>, M: seq<mpw>, Z: seq<mpw>, d: nat, n: nat, c: int, c': int, t: int)
    requires |X| == |M| == |Z| == d + n
    requires M[..d] == X[..d] && Z[d..] == M[d..]
    requires Val(M[d..]) == Val(X[d..]) - t + c * P(n)
    requires Val(Z[..d]) == Val(M[..d]) - c + c' * P(d)
    ensures Val(Z) == Val(X) - t + c' * P(d + n)
  {
    hide Val, P;
    MulDiff(0, c, P(n));
    MulDiff(0, c', P(d));
    MulDiff(0, c', P(d + n));
    TwoParts(X, M, Z, d, n, 0 - c, 0 - c', 0 - t);
  }

  lemma {:induction false} Complement(s: seq<mpw>, t: seq<mpw>)
    requires |s| == |t| && forall i :: 0 <= i < |s| ==> t[i] as int == W - 1 - s[i]
    ensures Val(s) + Val(t) == P(|s|) - 1
  {
    if |s| > 0 {
      var n := |s| - 1;
      Complement(s[..n], t[..n]);
      PSucc(n);
    }
  }

  /** The negative in two's complement: every bit is flipped, and one is added. */
  method MpNeg(size: nat, data: array<mpw>, o: nat)
    requires 0 < size && o + size <= data.Length
    modifies data
    ensures Val(data[o..o + size]) == (P(size) - old(Val(data[o..o + size]))) % P(size)
    ensures Framed(data, o, o + size)
  {
    hide Val, P;
    ghost var D := data[o..o + size];
    var i := 0;
    while i < size
      invariant i <= size
      invariant forall j :: 0 <= j < size ==> data[o + j] as int == if j < i then W - 1 - D[j] else D[j]
      invariant Kept(data, o, o + size)
    {
      data[o + i] := W - 1 - data[o + i];
      i := i + 1;
    }
    FrameWindows(old(data[..]), data[..], o, o + size);
    Complement(D, data[o..o + size]);
    ghost var carry := MpAddw(size, data, o, 1);
    ValBound(data[o..o + size]);
    DivModUnique(P(size) - Val(D), P(size), carry, Val(data[o..o + size]));
  }
}
