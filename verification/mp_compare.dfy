/** Comparison, copying and testing of multi-precision numbers (mp.c). */
module MpCompare {
  import opened Arith
  import opened Words

  /** The first differing word decides the order. */
  lemma FirstDifference(x: seq<mpw>, y: seq<mpw>, i: nat)
    requires |x| == |y| && i < |x|
    requires x[..i] == y[..i] && x[i] < y[i]
    ensures Val(x) < Val(y)
  {
    hide Val, P;
    var p := P(|x| - i - 1);
    ValSplit(x, i); ValSplit(y, i);
    ValCons(x[i..]); ValCons(y[i..]);
    assert x[i..][1..] == x[i + 1..] && y[i..][1..] == y[i + 1..];
    ValBound(x[i + 1..]);
    MulStep(x[i], y[i], p);
  }

  method MpGe(size: nat, x: array<mpw>, xo: nat, y: array<mpw>, yo: nat) returns (b: bool)
    requires xo + size <= x.Length && yo + size <= y.Length
    ensures b <==> Val(x[xo..xo + size]) >= Val(y[yo..yo + size])
  {
    hide Val, P;
    ghost var X, Y := x[xo..xo + size], y[yo..yo + size];
    var i := 0;
    while i < size
      invariant i <= size
      invariant X[..i] == Y[..i]
    {
      if x[xo + i] < y[yo + i] {
        FirstDifference(X, Y, i);
        return false;
      }
      if x[xo + i] > y[yo + i] {
        FirstDifference(Y, X, i);
        return true;
      }
      assert X[..i + 1] == X[..i] + [X[i]] && Y[..i + 1] == Y[..i] + [Y[i]];
      i := i + 1;
    }
    assert X == X[..size] && Y == Y[..size];
    return true;
  }

  method MpGt(size: nat, x: array<mpw>, xo: nat, y: array<mpw>, yo: nat) returns (b: bool)
    requires xo + size <= x.Length && yo + size <= y.Length
    ensures b <==> Val(x[xo..xo + size]) > Val(y[yo..yo + size])
  {
    hide Val, P;
    ghost var X, Y := x[xo..xo + size], y[yo..yo + size];
    var i := 0;
    while i < size
      invariant i <= size
      invariant X[..i] == Y[..i]
    {
      if x[xo + i] < y[yo + i] {
        FirstDifference(X, Y, i);
        return false;
      }
      if x[xo + i] > y[yo + i] {
        FirstDifference(Y, X, i);
        return true;
      }
      assert X[..i + 1] == X[..i] + [X[i]] && Y[..i + 1] == Y[..i] + [Y[i]];
      i := i + 1;
    }
    assert X == X[..size] && Y == Y[..size];
    return false;
  }

  method MpLt(size: nat, x: array<mpw>, xo: nat, y: array<mpw>, yo: nat) returns (b: bool)
    requires xo + size <= x.Length && yo + size <= y.Length
    ensures b <==> Val(x[xo..xo + size]) < Val(y[yo..yo + size])
  {
    b := MpGt(size, y, yo, x, xo);
  }

  method MpEq(size: nat, x: array<mpw>, xo: nat, y: array<mpw>, yo: nat) returns (b: bool)
    requires xo + size <= x.Length && yo + size <= y.Length
    ensures b <==> Val(x[xo..xo + size]) == Val(y[yo..yo + size])
  {
    hide Val, P;
    ghost var X, Y := x[xo..xo + size], y[yo..yo + size];
    var i := 0;
    while i < size
      invariant i <= size
      invariant forall j :: 0 <= j < i ==> X[j] == Y[j]
    {
      if x[xo + i] != y[yo + i] {
        if Val(X) == Val(Y) {
          ValInjective(X, Y);
        }
        return false;
      }
      i := i + 1;
    }
    assert X == Y;
    return true;
  }

  method MpZ(size: nat, x: array<mpw>, xo: nat) returns (b: bool)
    requires xo + size <= x.Length
    ensures b <==> Val(x[xo..xo + size]) == 0
  {
    hide Val, P;
    ghost var X := x[xo..xo + size];
    ValZero(X);
    var i := 0;
    while i < size
      invariant i <= size
      invariant forall j :: 0 <= j < i ==> X[j] == 0
    {
      if x[xo + i] != 0 {
        assert X[i] != 0;
        return false;
      }
      i := i + 1;
    }
    return true;
  }

  method MpNz(size: nat, x: array<mpw>, xo: nat) returns (b: bool)
    requires xo + size <= x.Length
    ensures b <==> Val(x[xo..xo + size]) != 0
  {
    b := MpZ(size, x, xo);
    b := !b;
  }

  /** Whether all words but the last are zero, which is when the value is the last word. */
  method OnlyLast(size: nat, x: array<mpw>, xo: nat) returns (b: bool)
    requires 0 < size && xo + size <= x.Length
    ensures b ==> Val(x[xo..xo + size]) == x[xo + size - 1]
    ensures !b ==> Val(x[xo..xo + size]) >= W
  {
    hide Val, P;
    ghost var X := x[xo..xo + size];
    ValSnoc(X);
    ghost var H := X[..size - 1];
    ValZero(H);
    var i := size - 1;
    while i > 0
      invariant 0 <= i <= size - 1
      invariant forall j :: i <= j < size - 1 ==> H[j] == 0
    {
      i := i - 1;
      if x[xo + i] != 0 {
        assert H[i] != 0;
        return false;
      }
    }
    return true;
  }

  method MpIsOne(size: nat, x: array<mpw>, xo: nat) returns (b: bool)
    requires 0 < size && xo + size <= x.Length
    ensures b <==> Val(x[xo..xo + size]) == 1
  {
    if x[xo + size - 1] == 1 {
      b := OnlyLast(size, x, xo);
    } else {
      ValSnoc(x[xo..xo + size]);
      b := false;
    }
  }

  method MpLeOne(size: nat, x: array<mpw>, xo: nat) returns (b: bool)
    requires 0 < size && xo + size <= x.Length
    ensures b <==> Val(x[xo..xo + size]) <= 1
  {
    if x[xo + size - 1] > 1 {
      ValSnoc(x[xo..xo + size]);
      b := false;
    } else {
      b := OnlyLast(size, x, xo);
    }
  }

  /** x >= y for numbers of different lengths. */
  method MpGex(xsize: nat, x: array<mpw>, xo: nat, ysize: nat, y: array<mpw>, yo: nat) returns (b: bool)
    requires xo + xsize <= x.Length && yo + ysize <= y.Length
    ensures b <==> Val(x[xo..xo + xsize]) >= Val(y[yo..yo + ysize])
  {
    hide Val, P;
    if xsize > ysize {
      var diff := xsize - ysize;
      Longer(x[xo..xo + xsize], diff, y[yo..yo + ysize]);
      assert x[xo..xo + xsize][..diff] == x[xo..xo + diff];
      assert x[xo..xo + xsize][diff..] == x[xo + diff..xo + diff + ysize];
      b := MpNz(diff, x, xo);
      if !b {
        b := MpGe(ysize, x, xo + diff, y, yo);
      }
    } else if xsize < ysize {
      var diff := ysize - xsize;
      Longer(y[yo..yo + ysize], diff, x[xo..xo + xsize]);
      assert y[yo..yo + ysize][..diff] == y[yo..yo + diff];
      assert y[yo..yo + ysize][diff..] == y[yo + diff..yo + diff + xsize];
      b := MpZ(diff, y, yo);
      if b {
        b := MpGe(xsize, x, xo, y, yo + diff);
      }
    } else {
      b := MpGe(xsize, x, xo, y, yo);
    }
  }

  /** A longer number is its low part when the words above are zero, and exceeds
      every number of the shorter length otherwise. */
  lemma Longer(s: seq<mpw>, diff: nat, t: seq<mpw>)
    requires |s| == diff + |t|
    ensures Val(s[..diff]) == 0 ==> Val(s) == Val(s[diff..])
    ensures Val(s[..diff]) != 0 ==> Val(s) > Val(t)
  {
    hide Val, P;
    ValSplit(s, diff);
    ValBound(t);
    if Val(s[..diff]) != 0 {
      MulStep(0, Val(s[..diff]), P(|t|));
    }
  }

  method MpGtx(xsize: nat, x: array<mpw>, xo: nat, ysize: nat, y: array<mpw>, yo: nat) returns (b: bool)
    requires xo + xsize <= x.Length && yo + ysize <= y.Length
    ensures b <==> Val(x[xo..xo + xsize]) > Val(y[yo..yo + ysize])
  {
    hide Val, P;
    if xsize > ysize {
      var diff := xsize - ysize;
      Longer(x[xo..xo + xsize], diff, y[yo..yo + ysize]);
      assert x[xo..xo + xsize][..diff] == x[xo..xo + diff];
      assert x[xo..xo + xsize][diff..] == x[xo + diff..xo + diff + ysize];
      b := MpNz(diff, x, xo);
      if !b {
        b := MpGt(ysize, x, xo + diff, y, yo);
      }
    } else if xsize < ysize {
      var diff := ysize - xsize;
      Longer(y[yo..yo + ysize], diff, x[xo..xo + xsize]);
      assert y[yo..yo + ysize][..diff] == y[yo..yo + diff];
      assert y[yo..yo + ysize][diff..] == y[yo + diff..yo + diff + xsize];
      b := MpZ(diff, y, yo);
      if b {
        b := MpGt(xsize, x, xo, y, yo + diff);
      }
    } else {
      b := MpGt(xsize, x, xo, y, yo);
    }
  }

  method MpEqx(xsize: nat, x: array<mpw>, xo: nat, ysize: nat, y: array<mpw>, yo: nat) returns (b: bool)
    requires xo + xsize <= x.Length && yo + ysize <= y.Length
    ensures b <==> Val(x[xo..xo + xsize]) == Val(y[yo..yo + ysize])
  {
    hide Val, P;
    if xsize > ysize {
      var diff := xsize - ysize;
      Longer(x[xo..xo + xsize], diff, y[yo..yo + ysize]);
      assert x[xo..xo + xsize][..diff] == x[xo..xo + diff];
      assert x[xo..xo + xsize][diff..] == x[xo + diff..xo + diff + ysize];
      b := MpEq(ysize, x, xo + diff, y, yo);
      if b {
        b := MpZ(diff, x, xo);
      }
    } else if xsize < ysize {
      var diff := ysize - xsize;
      Longer(y[yo..yo + ysize], diff, x[xo..xo + xsize]);
      assert y[yo..yo + ysize][..diff] == y[yo..yo + diff];
      assert y[yo..yo + ysize][diff..] == y[yo + diff..yo + diff + xsize];
      b := MpEq(xsize, y, yo + diff, x, xo);
      if b {
        b := MpZ(diff, y, yo);
      }
    } else {
      b := MpEq(xsize, x, xo, y, yo);
    }
  }
}
