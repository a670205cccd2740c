/** Arithmetic modulo the modulus of a Barrett structure (mpbarrett.c). */
module BarrettArith {
  import opened Arith
  import opened Words
  import opened MpAddSub
  import opened MpMultiply
  import opened Barrett

  /** The workspace of the functions below: two buffers that are apart from everything else. */
  predicate Workspace(b: MpBarrett, wksp: array<mpw>, temp: array<mpw>, result: array<mpw>)
    reads b
  {
    && wksp.Length >= 2 * b.size + 2 && temp.Length >= 2 * b.size
    && wksp != temp && wksp != result && temp != result
    && wksp != b.modl && temp != b.modl && result != b.modl
  }

  lemma DoubleFits(k: nat)
    requires 0 < k
    ensures 2 * P(k) <= P(2 * k)
  {
    hide P;
    PAdd(k, k);
    PMono(1, k);
    PSucc(0);
    MulMono(2, P(k), P(k));
  }

  method MpBAddMod(b: MpBarrett, xsize: nat, x: array<mpw>, xo: nat, ysize: nat, y: array<mpw>, yo: nat,
                   result: array<mpw>, ro: nat, wksp: array<mpw>, temp: array<mpw>)
    requires b.Valid() && Workspace(b, wksp, temp, result)
    requires xsize <= b.size && ysize <= b.size
    requires xo + xsize <= x.Length && yo + ysize <= y.Length && ro + b.size <= result.Length
    requires x != temp && y != temp
    modifies result, wksp, temp
    ensures Val(result[ro..ro + b.size]) ==
            Rem(old(Val(x[xo..xo + xsize])) + old(Val(y[yo..yo + ysize])), b.Modulus())
    ensures Framed(result, ro, ro + b.size)
    ensures b.Valid()
  {
    hide Val, P;
    ghost var X, Y := x[xo..xo + xsize], y[yo..yo + ysize];
    ghost var n := 2 * b.size;
    ShortFits(X, b.size);
    ShortFits(Y, b.size);
    DoubleFits(b.size);
    ResizedIsMod(n, X);
    ResizedIsMod(n, Y);
    MpSetx(2 * b.size, temp, 0, xsize, x, xo);
    ghost var carry := MpAddx(2 * b.size, temp, 0, ysize, y, yo);
    NoCarryOut(temp[0..n], Val(X) + Val(Y), carry);
    MpBMod(b, temp, 0, result, ro, wksp);
  }

  lemma ShortFits(s: seq<mpw>, k: nat)
    requires |s| <= k
    ensures Val(s) < P(k)
  {
    hide Val, P;
    ValBound(s);
    PMono(|s|, k);
  }

  lemma NoCarryOut(s: seq<mpw>, v: int, carry: int)
    requires v < P(|s|) && (carry == 0 || carry == 1)
    requires Val(s) + carry * P(|s|) == v
    ensures Val(s) == v
  {
    hide Val, P;
  }

  method MpBSubMod(b: MpBarrett, xsize: nat, x: array<mpw>, xo: nat, ysize: nat, y: array<mpw>, yo: nat,
                   result: array<mpw>, ro: nat, wksp: array<mpw>, temp: array<mpw>)
    requires b.Valid() && Workspace(b, wksp, temp, result)
    requires xsize <= b.size && ysize <= b.size
    requires xo + xsize <= x.Length && yo + ysize <= y.Length && ro + b.size <= result.Length
    requires x != temp && y != temp
    modifies result, wksp, temp
    ensures Val(result[ro..ro + b.size]) ==
            Rem(old(Val(x[xo..xo + xsize])) - old(Val(y[yo..yo + ysize])), b.Modulus())
    ensures Framed(result, ro, ro + b.size)
    ensures b.Valid()
  {
    hide Val, P, Rem;
    ghost var d := Val(x[xo..xo + xsize]) - Val(y[yo..yo + ysize]);
    ghost var j := DifferenceUp(b, xsize, x, xo, ysize, y, yo, temp);
    MpBMod(b, temp, 0, result, ro, wksp);
    RemPlus(d, b.Modulus(), j);
  }

  /** x - y, raised by multiples of the modulus until it is not negative. */
  method DifferenceUp(b: MpBarrett, xsize: nat, x: array<mpw>, xo: nat, ysize: nat, y: array<mpw>, yo: nat,
                      temp: array<mpw>) returns (ghost j: int)
    requires b.Valid() && temp.Length >= 2 * b.size && temp != b.modl
    requires xsize <= b.size && ysize <= b.size
    requires xo + xsize <= x.Length && yo + ysize <= y.Length
    requires x != temp && y != temp
    modifies temp
    ensures Val(temp[0..2 * b.size]) ==
            old(Val(x[xo..xo + xsize])) - old(Val(y[yo..yo + ysize])) + j * b.Modulus()
    ensures b.Valid()
  {
    hide Val, P;
    ghost var X, Y := x[xo..xo + xsize], y[yo..yo + ysize];
    ghost var n := 2 * b.size;
    ShortFits(X, b.size);
    ShortFits(Y, b.size);
    DoubleFits(b.size);
    ResizedIsMod(n, X);
    ResizedIsMod(n, Y);
    MpSetx(2 * b.size, temp, 0, xsize, x, xo);
    var borrow := MpSubx(2 * b.size, temp, 0, ysize, y, yo);
    j := 0;
    if borrow != 0 {
      j := AddUntilCarry(b, temp, Val(X) - Val(Y));
    }
  }

  /** Keeps adding the modulus to the representation of the negative number v until there is a carry. */
  method AddUntilCarry(b: MpBarrett, temp: array<mpw>, ghost v: int) returns (ghost j: int)
    requires b.Valid() && temp.Length >= 2 * b.size && temp != b.modl
    requires Val(temp[0..2 * b.size]) == v + P(2 * b.size)
    modifies temp
    ensures Val(temp[0..2 * b.size]) == v + j * b.Modulus()
    ensures b.Valid()
  {
    hide Val, P;
    ghost var n, m := 2 * b.size, b.Modulus();
    ghost var M := b.modl[0..b.size];
    ShortFits(M, b.size);
    DoubleFits(b.size);
    ResizedIsMod(n, M);
    var carry := 0;
    j := 0;
    while carry == 0
      invariant carry == 0 || carry == 1
      invariant b.modl[0..b.size] == M && b.Valid() && Val(M) == m
      invariant Val(temp[0..n]) == v + j * m + (if carry == 0 then P(n) else 0)
      invariant 0 < m
      decreases 1 - carry, P(n) - Val(temp[0..n])
    {
      ghost var before := Val(temp[0..n]);
      carry := MpAddx(2 * b.size, temp, 0, b.size, b.modl, 0);
      assert (j + 1) * m == j * m + m;
      j := j + 1;
      ValBound(temp[0..n]);
    }
  }

  method MpBMulMod(b: MpBarrett, xsize: nat, x: array<mpw>, xo: nat, ysize: nat, y: array<mpw>, yo: nat,
                   result: array<mpw>, ro: nat, wksp: array<mpw>, temp: array<mpw>)
    requires b.Valid() && Workspace(b, wksp, temp, result)
    requires 0 < xsize <= b.size && 0 < ysize <= b.size
    requires xo + xsize <= x.Length && yo + ysize <= y.Length && ro + b.size <= result.Length
    requires x != temp && y != temp
    modifies result, wksp, temp
    ensures Val(result[ro..ro + b.size]) ==
            Rem(old(Val(x[xo..xo + xsize])) * old(Val(y[yo..yo + ysize])), b.Modulus())
    ensures Framed(result, ro, ro + b.size)
    ensures b.Valid()
  {
    hide Val, P, Rem;
    var fill := 2 * b.size - xsize - ysize;
    ghost var X, Y := Val(x[xo..xo + xsize]), Val(y[yo..yo + ysize]);
    MpZero(fill, temp, 0);
    ghost var zeros := temp[0..fill];
    assert x[xo..xo + xsize] == old(x[xo..xo + xsize]) && y[yo..yo + ysize] == old(y[yo..yo + ysize]);
    MpMul(temp, fill, xsize, x, xo, ysize, y, yo);
    assert fill + xsize + ysize == 2 * b.size;
    FillIn(zeros, temp[fill..fill + xsize + ysize], temp[0..2 * b.size], X * Y);
    MpBMod(b, temp, 0, result, ro, wksp);
  }

  lemma FillIn(zeros: seq<mpw>, low: seq<mpw>, s: seq<mpw>, v: int)
    requires s == zeros + low && Val(zeros) == 0 && Val(low) == v
    ensures Val(s) == v
  {
    hide Val, P;
    ValConcat(zeros, low);
  }

  method MpBSqrMod(b: MpBarrett, xsize: nat, x: array<mpw>, xo: nat, result: array<mpw>, ro: nat,
                   wksp: array<mpw>, temp: array<mpw>)
    requires b.Valid() && Workspace(b, wksp, temp, result)
    requires 0 < xsize <= b.size
    requires xo + xsize <= x.Length && ro + b.size <= result.Length
    requires x != temp
    modifies result, wksp, temp
    ensures Val(result[ro..ro + b.size]) ==
            Rem(old(Val(x[xo..xo + xsize])) * old(Val(x[xo..xo + xsize])), b.Modulus())
    ensures Framed(result, ro, ro + b.size)
    ensures b.Valid()
  {
    hide Val, P, Rem;
    var fill := 2 * (b.size - xsize);
    ghost var X := Val(x[xo..xo + xsize]);
    MpZero(fill, temp, 0);
    ghost var zeros := temp[0..fill];
    assert x[xo..xo + xsize] == old(x[xo..xo + xsize]);
    MpSqr(temp, fill, xsize, x, xo);
    assert fill + 2 * xsize == 2 * b.size;
    FillIn(zeros, temp[fill..fill + 2 * xsize], temp[0..2 * b.size], X * X);
    MpBMod(b, temp, 0, result, ro, wksp);
  }
}
