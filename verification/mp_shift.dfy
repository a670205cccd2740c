/** Shifting of multi-precision numbers (mp.c). */
module MpShift {
  import opened Arith
  import opened Words
  import opened MpAddSub

  lemma DoubleStep(D: seq<mpw>, i: nat, z: mpw, tail: seq<mpw>, c: int, c': int)
    requires i < |D| && |tail| == |D| - i - 1
    requires z as int + c' * W == 2 * D[i] as int + c
    requires Val(tail) + c * P(|tail|) == 2 * Val(D[i + 1..])
    ensures Val([z] + tail) + c' * P(|tail| + 1) == 2 * Val(D[i..])
  {
    hide Val, P;
    var d: int := D[i];
    Carry(z, tail, c, c', 2 * d, 2 * Val(D[i + 1..]));
    ValCons(D[i..]);
    assert D[i..][1..] == D[i + 1..];
    MulSum(d, d, P(|tail|));
  }

  /** data *= 2, the bit that does not fit is returned. */
  method MpMulTwo(size: nat, data: array<mpw>, o: nat) returns (carry: int)
    requires o + size <= data.Length
    modifies data
    ensures carry == 0 || carry == 1
    ensures Val(data[o..o + size]) + carry * P(size) == 2 * old(Val(data[o..o + size]))
    ensures Framed(data, o, o + size)
  {
    hide Val, P;
    ghost var D := data[o..o + size];
    carry := 0;
    var i := size;
    ValEmpty(D[i..]);
    ValEmpty(data[o + i..o + size]);
    while i > 0
      invariant 0 <= i <= size && (carry == 0 || carry == 1)
      invariant Val(data[o + i..o + size]) + carry * P(size - i) == 2 * Val(D[i..])
      invariant Kept(data, o + i, o + size)
    {
      ghost var tail, c := data[o + i..o + size], carry;
      i := i - 1;
      var temp := data[o + i];
      data[o + i] := ShlOne(temp) + carry;
      carry := Msb(temp);
      assert data[o + i..o + size] == [data[o + i]] + tail;
      DoubleStep(D, i, data[o + i], tail, c, carry);
    }
    assert D[0..] == D;
    FrameWindows(old(data[..]), data[..], o, o + size);
  }

  // ----- halving

  method MpDivTwo(size: nat, data: array<mpw>, o: nat)
    requires o + size <= data.Length
    modifies data
    ensures Val(data[o..o + size]) == old(Val(data[o..o + size])) / 2
    ensures size > 0 ==> data[o] == old(data[o]) / 2
    ensures Framed(data, o, o + size)
  {
    hide Val, P;
    ghost var D := data[o..o + size];
    var carry := 0;
    ghost var c := 0;
    var i := 0;
    ValEmpty(data[o..o + i]);
    ValEmpty(D[..i]);
    while i < size
      invariant 0 <= i <= size && (c == 0 || c == 1) && carry == c * (W / 2)
      invariant 2 * Val(data[o..o + i]) + c == Val(D[..i])
      invariant i == 0 ==> c == 0
      invariant i > 0 ==> data[o] == D[0] / 2
      invariant Kept(data, o, o + i)
    {
      ghost var before := data[o..o + i];
      var temp := data[o + i];
      // the bit from the word above goes to the top
      data[o + i] := temp / 2 + carry;
      HalveStep(D, i, before, c, data[o + i]);
      assert data[o..o + (i + 1)] == before + [data[o + i]];
      c := temp as int % 2;
      carry := temp as int % 2 * (W / 2);
      i := i + 1;
    }
    assert D[..size] == D;
    FrameWindows(old(data[..]), data[..], o, o + size);
  }

  lemma HalveStep(D: seq<mpw>, i: nat, before: seq<mpw>, c: int, z: mpw)
    requires i < |D| && |before| == i
    requires z as int == D[i] / 2 + c * (W / 2)
    requires 2 * Val(before) + c == Val(D[..i])
    ensures 2 * Val(before + [z]) + D[i] % 2 == Val(D[..i + 1])
  {
    hide Val, P;
    ValSnoc(before + [z]);
    ValSnoc(D[..i + 1]);
    assert (before + [z])[..i] == before && D[..i + 1][..i] == D[..i];
  }

  /** The number a word string denotes in two's complement. */
  function SVal(s: seq<mpw>): int
    requires |s| > 0
  {
    if s[0] < W / 2 then Val(s) else Val(s) - P(|s|)
  }

  lemma SValBounds(s: seq<mpw>)
    requires |s| > 0
    ensures -P(|s|) <= 2 * SVal(s) < P(|s|)
    ensures SVal(s) < 0 <==> s[0] >= W / 2
  {
    hide Val, P;
    var p := P(|s| - 1);
    PSucc(|s| - 1);
    ValCons(s);
    ValBound(s[1..]);
    ValBound(s);
    if s[0] < W / 2 {
      MulMono(s[0], W / 2 - 1, p);
    } else {
      MulMono(W / 2, s[0], p);
    }
  }

  /** A number within range is denoted by the word string that is congruent to it. */
  lemma SValUnique(s: seq<mpw>, v: int, k: int)
    requires |s| > 0
    requires Val(s) == v + k * P(|s|)
    requires -P(|s|) <= 2 * v < P(|s|)
    ensures SVal(s) == v
  {
    hide Val, P;
    SValBounds(s);
    var p := P(|s|);
    var j := if s[0] < W / 2 then k else k - 1;
    assert SVal(s) == v + j * p by {
      assert (k - 1) * p == k * p - p;
    }
    if j >= 1 {
      MulMono(1, j, p);
    }
    if j <= -1 {
      MulMono(j, -1, p);
    }
  }

  /** Halving in two's complement. */
  method MpSDivTwo(size: nat, data: array<mpw>, o: nat)
    requires 0 < size && o + size <= data.Length
    modifies data
    ensures SVal(data[o..o + size]) == old(SVal(data[o..o + size])) / 2
    ensures Framed(data, o, o + size)
  {
    hide Val, P;
    ghost var D := data[o..o + size];
    var carry := Msb(data[o]);
    MpDivTwo(size, data, o);
    ghost var E := data[o..o + size];
    if carry != 0 {
      // mpsetmsb: the bit is clear after the shift
      data[o] := data[o] + W / 2;
    }
    SetMsb(D, E, data[o..o + size]);
    FrameWindows(old(data[..]), data[..], o, o + size);
  }

  lemma SetMsb(D: seq<mpw>, E: seq<mpw>, Z: seq<mpw>)
    requires |D| == |E| == |Z| > 0
    requires Val(E) == Val(D) / 2 && E[0] == D[0] / 2
    requires Z[1..] == E[1..]
    requires Z[0] as int == E[0] as int + (if D[0] < W / 2 then 0 else W / 2)
    ensures SVal(Z) == SVal(D) / 2
  {
    hide Val, P;
    var p := P(|D| - 1);
    PSucc(|D| - 1);
    if D[0] < W / 2 {
      assert Z == E by {
        assert Z == [Z[0]] + Z[1..] && E == [E[0]] + E[1..];
      }
    } else {
      ValCons(E);
      ValCons(Z);
      MulSum(E[0], W / 2, p);
      HalfLess(Val(D), p);
    }
  }

  lemma HalfLess(v: int, p: int)
    ensures (v - W * p) / 2 == v / 2 + (W / 2) * p - W * p
  {
  }

  // ----- counting zeros and normalizing

  /** s is the number of most significant zero bits. */
  ghost predicate LeadingZeros(s: seq<mpw>, z: nat) {
    if Val(s) == 0 then z == MP_WBITS * |s|
    else z < MP_WBITS * |s| && P2(MP_WBITS * |s| - z - 1) <= Val(s) < 2 * P2(MP_WBITS * |s| - z - 1)
  }

  method MpMszCnt(size: nat, data: array<mpw>, o: nat) returns (zbits: nat)
    requires o + size <= data.Length
    ensures LeadingZeros(data[o..o + size], zbits)
    ensures size > 0 && data[o] != 0 ==> zbits < MP_WBITS
  {
    hide Val, P, P2;
    ghost var D := data[o..o + size];
    zbits := 0;
    var i := 0;
    while i < size
      invariant 0 <= i <= size && zbits == MP_WBITS * i
      invariant forall j :: 0 <= j < i ==> D[j] == 0
    {
      var temp: mpw := data[o + i];
      if temp != 0 {
        ghost var c := 0;
        P2Succ(0);
        P2Word();
        while temp < W / 2
          invariant 0 < temp && zbits == MP_WBITS * i + c
          invariant D[i] as int * P2(c) == temp as int
          invariant c < MP_WBITS
          decreases W - temp as int
        {
          P2Succ(c);
          assert D[i] as int * (2 * P2(c)) == 2 * (D[i] as int * P2(c));
          zbits := zbits + 1;
          temp := ShlOne(temp);
          c := c + 1;
          NotTooFar(D[i], c, temp);
        }
        TopWord(D, i, c, temp);
        return;
      }
      zbits := zbits + MP_WBITS;
      i := i + 1;
    }
    ValZero(D);
  }

  lemma NotTooFar(w: mpw, c: nat, t: mpw)
    requires 0 < w && w as int * P2(c) == t as int
    ensures c < MP_WBITS
  {
    hide P2;
    P2Word();
    if c >= MP_WBITS {
      P2Mono(MP_WBITS, c);
      MulMono(1, w, P2(c));
    }
  }

  lemma TopWord(D: seq<mpw>, i: nat, c: nat, t: mpw)
    requires i < |D| && forall j :: 0 <= j < i ==> D[j] == 0
    requires D[i] as int * P2(c) == t as int >= W / 2
    requires c < MP_WBITS
    ensures LeadingZeros(D, MP_WBITS * i + c)
  {
    hide Val, P, P2;
    var k := |D| - i - 1;
    ValSplit(D, i);
    ValZero(D[..i]);
    ValCons(D[i..]);
    assert D[i..][1..] == D[i + 1..];
    ValBound(D[i + 1..]);
    TopBit(D[i], c, t);
    Scaled(D[i], P2(MP_WBITS - 1 - c), P(k), Val(D[i + 1..]));
    PIsP2(k);
    P2Add(MP_WBITS - 1 - c, MP_WBITS * k);
    assert MP_WBITS * |D| - (MP_WBITS * i + c) - 1 == MP_WBITS - 1 - c + MP_WBITS * k;
  }

  lemma TopBit(d: mpw, c: nat, t: mpw)
    requires c < MP_WBITS && d as int * P2(c) == t as int >= W / 2
    ensures P2(MP_WBITS - 1 - c) <= d as int < 2 * P2(MP_WBITS - 1 - c)
  {
    hide P2;
    var e, f := P2(MP_WBITS - 1 - c), P2(c);
    P2Word();
    P2Add(MP_WBITS - 1 - c, c);
    if d as int < e {
      MulStep(d, e, f);
    }
    assert (2 * e) * f == 2 * (e * f);
    if d as int >= 2 * e {
      MulMono(2 * e, d, f);
    }
  }

  lemma Scaled(d: int, e: int, p: int, low: int)
    requires 1 <= e <= d < 2 * e && 0 <= low < p
    ensures 0 < e * p <= d * p + low < 2 * (e * p)
  {
    MulMono(e, d, p);
    MulStep(d, 2 * e, p);
    MulPos(e, p);
    assert (2 * e) * p == 2 * (e * p);
  }

  // ----- shifts by any number of bits

  method MpLShift(size: nat, data: array<mpw>, o: nat, count: nat)
    requires o + size <= data.Length
    modifies data
    ensures Val(data[o..o + size]) == old(Val(data[o..o + size])) * P2(count) % P(size)
    ensures Framed(data, o, o + size)
  {
    hide Val, P, P2;
    ghost var D := data[o..o + size];
    var words := count / MP_WBITS;
    if words < size {
      var lbits := count % MP_WBITS;
      ghost var c := ShiftWordsLeft(size, data, o, words, lbits);
      assert data[o..o + size][words..] == data[o + words..o + size];
      ghost var S := data[o + words..o + size];
      if words > 0 {
        MoveUp(size, data, o, words);
      } else {
        PSucc(0);
      }
      LeftShifted(D, words, lbits, S, c, data[o..o + size]);
    } else {
      MpZero(size, data, o);
      AllGone(D, count);
    }
  }

  lemma AllGone(D: seq<mpw>, count: nat)
    requires count / MP_WBITS >= |D|
    ensures Val(D) * P2(count) % P(|D|) == 0
  {
    hide Val, P, P2;
    PIsP2(|D|);
    var k := count - MP_WBITS * |D|;
    P2Add(k, MP_WBITS * |D|);
    assert Val(D) * (P2(k) * P(|D|)) == (Val(D) * P2(k)) * P(|D|);
    DivModUnique(Val(D) * P2(count), P(|D|), Val(D) * P2(k), 0);
  }

  lemma LeftShifted(D: seq<mpw>, words: nat, lbits: nat, S: seq<mpw>, c: int, Z: seq<mpw>)
    requires words < |D| && |S| == |D| - words && |Z| == |D|
    requires Val(S) + c * P(|S|) == Val(D[words..]) * P2(lbits)
    requires Val(Z) == Val(S) * P(words)
    ensures Val(Z) == Val(D) * P2(MP_WBITS * words + lbits) % P(|D|)
  {
    hide Val, P, P2;
    ValSplit(D, words);
    PIsP2(words);
    P2Add(MP_WBITS * words, lbits);
    PAdd(words, |S|);
    var h: int, l: int, w, s, b := Val(D[..words]), Val(D[words..]), P(words), P(|S|), P2(lbits);
    Regroup(h, l, w, s, b, Val(S), c);
    ValBound(S);
    MulStep(Val(S), s, w);
    assert s * w == w * s;
    DivModUnique(Val(D) * (w * b), w * s, h * b + c, Val(Z));
  }

  lemma Regroup(h: int, l: int, w: int, s: int, b: int, v: int, c: int)
    requires v + c * s == l * b
    ensures (h * s + l) * (w * b) == (h * b + c) * (w * s) + v * w
  {
    calc {
      (h * s + l) * (w * b);
      (h * b) * (w * s) + (l * b) * w;
      { assert (v + c * s) * w == v * w + c * (w * s); }
      (h * b) * (w * s) + c * (w * s) + v * w;
      (h * b + c) * (w * s) + v * w;
    }
  }

  /** The words from index words on are shifted left within themselves. */
  method ShiftWordsLeft(size: nat, data: array<mpw>, o: nat, words: nat, lbits: nat) returns (ghost c: int)
    requires o + size <= data.Length && words < size && lbits < MP_WBITS
    modifies data
    ensures Val(data[o + words..o + size]) + c * P(size - words) == old(Val(data[o + words..o + size])) * P2(lbits)
    ensures Framed(data, o + words, o + size)
  {
    hide Val, P, P2;
    ghost var D := data[o..o + size];
    assert D[words..] == data[o + words..o + size];
    c := 0;
    P2Succ(0);
    if lbits > 0 {
      var carry: mpw := 0;
      var i := size;
      ValEmpty(data[o + i..o + size]);
      ValEmpty(D[i..]);
      while i > words
        invariant words <= i <= size && carry as int < P2(lbits)
        invariant Val(data[o + i..o + size]) + carry * P(size - i) == Val(D[i..]) * P2(lbits)
        invariant Kept(data, o + i, o + size)
      {
        ghost var tail, k := data[o + i..o + size], carry;
        i := i - 1;
        data[o + i], carry := ShiftWord(data[o + i], lbits, carry);
        assert data[o + i..o + size] == [data[o + i]] + tail;
        ShiftStep(D, i, P2(lbits), data[o + i], tail, k, carry);
      }
      c := carry;
    }
    FrameWindows(old(data[..]), data[..], o + words, o + size);
  }

  /** Shifts a word left and takes in the bits of the word below; what leaves it is the next carry. */
  method ShiftWord(temp: mpw, lbits: nat, carry: mpw) returns (z: mpw, carry': mpw)
    requires 0 < lbits <= MP_WBITS && carry as int < P2(lbits)
    ensures z as int + carry' * W == temp as int * P2(lbits) + carry as int
    ensures carry' as int < P2(lbits)
    ensures carry % 2 == 1 ==> z % 2 == 1
  {
    hide P2, Shl, Shr;
    Rotate(temp, lbits);
    EvenShift(temp, lbits, carry);
    z := Shl(temp, lbits) + carry;
    carry' := Shr(temp, MP_WBITS - lbits);
  }

  lemma ShiftStep(D: seq<mpw>, i: nat, b: int, z: mpw, tail: seq<mpw>, c: int, c': int)
    requires i < |D| && |tail| == |D| - i - 1
    requires z as int + c' * W == D[i] as int * b + c
    requires Val(tail) + c * P(|tail|) == Val(D[i + 1..]) * b
    ensures Val([z] + tail) + c' * P(|tail| + 1) == Val(D[i..]) * b
  {
    hide Val, P;
    Carry(z, tail, c, c', D[i] as int * b, Val(D[i + 1..]) * b);
    ValCons(D[i..]);
    assert D[i..][1..] == D[i + 1..];
    var d: int, p := D[i], P(|tail|);
    MulSum(d * p, Val(D[i + 1..]), b);
    assert (d * p) * b == (d * b) * p;
  }

  /** mpmove and mpzero after a left shift. */
  method MoveUp(size: nat, data: array<mpw>, o: nat, words: nat)
    requires o + size <= data.Length && words < size
    modifies data
    ensures Val(data[o..o + size]) == old(Val(data[o + words..o + size])) * P(words)
    ensures Framed(data, o, o + size)
  {
    hide Val, P;
    var m := o + (size - words);
    MpCopy(size - words, data, o, data, o + words);
    assert o + words + (size - words) == o + size;
    MpZero(words, data, m);
    assert m + words == o + size;
    assert data[o..o + size] == data[o..m] + data[m..o + size];
    ValConcat(data[o..m], data[m..o + size]);
  }

  /** mpmove and mpzero after a right shift. */
  method MoveDown(size: nat, data: array<mpw>, o: nat, words: nat)
    requires o + size <= data.Length && words < size
    modifies data
    ensures Val(data[o..o + size]) == old(Val(data[o..o + (size - words)]))
    ensures Framed(data, o, o + size)
  {
    hide Val, P;
    var m := o + words;
    MpCopy(size - words, data, m, data, o);
    assert m + (size - words) == o + size;
    MpZero(words, data, o);
    assert data[o..o + size] == data[o..m] + data[m..o + size];
    ValConcat(data[o..m], data[m..o + size]);
  }

  method MpRShift(size: nat, data: array<mpw>, o: nat, count: nat)
    requires o + size <= data.Length
    modifies data
    ensures Val(data[o..o + size]) == old(Val(data[o..o + size])) / P2(count)
    ensures Framed(data, o, o + size)
  {
    hide Val, P, P2;
    ghost var D := data[o..o + size];
    var words := count / MP_WBITS;
    if words < size {
      var rbits := count % MP_WBITS;
      ghost var rem := ShiftWordsRight(size, data, o, words, rbits);
      ghost var S := data[o..o + (size - words)];
      assert D[..size - words] == old(data[o..o + (size - words)]);
      if words > 0 {
        MoveDown(size, data, o, words);
      }
      RightShifted(D, words, rbits, S, rem);
    } else {
      MpZero(size, data, o);
      Vanished(D, count);
    }
  }

  lemma Vanished(D: seq<mpw>, count: nat)
    requires count / MP_WBITS >= |D|
    ensures Val(D) / P2(count) == 0
  {
    hide Val, P, P2;
    PIsP2(|D|);
    P2Mono(MP_WBITS * |D|, count);
    ValBound(D);
    DivModUnique(Val(D), P2(count), 0, Val(D));
  }

  lemma RightShifted(D: seq<mpw>, words: nat, rbits: nat, S: seq<mpw>, rem: int)
    requires words < |D|
    requires Val(S) * P2(rbits) + rem == Val(D[..|D| - words]) && 0 <= rem < P2(rbits)
    ensures Val(S) == Val(D) / P2(MP_WBITS * words + rbits)
  {
    hide Val, P, P2;
    var m := |D| - words;
    ValSplit(D, m);
    ValBound(D[m..]);
    PIsP2(words);
    P2Add(MP_WBITS * words, rbits);
    var p, b, low: int := P(words), P2(rbits), Val(D[m..]);
    MulStep(rem, b, p);
    MulMono(0, rem, p);
    assert b * p == p * b;
    assert (Val(S) * b + rem) * p == Val(S) * (p * b) + rem * p;
    DivModUnique(Val(D), p * b, Val(S), rem * p + low);
  }

  /** The words but the last few are shifted right within themselves. */
  method ShiftWordsRight(size: nat, data: array<mpw>, o: nat, words: nat, rbits: nat) returns (ghost rem: int)
    requires o + size <= data.Length && words < size && rbits < MP_WBITS
    modifies data
    ensures 0 <= rem < P2(rbits)
    ensures Val(data[o..o + (size - words)]) * P2(rbits) + rem == old(Val(data[o..o + (size - words)]))
    ensures Framed(data, o, o + (size - words))
  {
    hide Val, P, P2;
    ghost var D := data[o..o + (size - words)];
    rem := 0;
    P2Succ(0);
    if rbits > 0 {
      var carry: mpw := 0;
      var lbits := MP_WBITS - rbits;
      var i := 0;
      ValEmpty(data[o..o + i]);
      ValEmpty(D[..i]);
      while i < size - words
        invariant 0 <= i <= size - words
        invariant 0 <= rem < P2(rbits) && carry as int == rem * P2(lbits)
        invariant Val(data[o..o + i]) * P2(rbits) + rem == Val(D[..i])
        invariant Kept(data, o, o + i)
      {
        ghost var before, r := data[o..o + i], rem;
        var temp := data[o + i];
        rem := LowBits(temp, rbits, r);
        // the bits from the word above go to the top
        data[o + i] := Shr(temp, rbits) + carry;
        carry := Shl(temp, lbits);
        RightStep(D, i, P2(rbits), before, r, data[o + i], rem);
        assert data[o..o + (i + 1)] == before + [data[o + i]];
        i := i + 1;
      }
      assert D[..i] == D;
    }
    FrameWindows(old(data[..]), data[..], o, o + (size - words));
  }

  /** The bits that a right shift pushes out come back in the next word. */
  lemma LowBits(w: mpw, rbits: nat, r: int) returns (rem: int)
    requires 0 < rbits < MP_WBITS && 0 <= r < P2(rbits)
    ensures 0 <= rem < P2(rbits)
    ensures Shl(w, MP_WBITS - rbits) as int == rem * P2(MP_WBITS - rbits)
    ensures 0 <= Shr(w, rbits) as int + r * P2(MP_WBITS - rbits) < W
    ensures (Shr(w, rbits) as int + r * P2(MP_WBITS - rbits)) * P2(rbits) + rem == w as int + r * W
  {
    hide P2, Shl, Shr;
    var l, b := P2(MP_WBITS - rbits), P2(rbits);
    P2Word();
    P2Add(rbits, MP_WBITS - rbits);
    P2Add(MP_WBITS - rbits, rbits);
    rem := w as int % b;
    ShrIs(w, rbits);
    Rotate(w, MP_WBITS - rbits);
    OutAndIn(w, Shr(w, rbits), rem, l, b, r, Shl(w, MP_WBITS - rbits));
  }

  lemma ShrIs(w: mpw, b: nat)
    ensures Shr(w, b) as int * P2(b) + w as int % P2(b) == w as int
    ensures 0 <= w as int % P2(b) < P2(b)
  {
    hide P2;
    DivMod(w, P2(b));
  }

  lemma OutAndIn(w: int, q: int, rem: int, l: int, b: int, r: int, out: int)
    requires q * b + rem == w && l * b == W && 0 <= q < l && 0 <= r < b
    requires out + q * W == w * l
    ensures out == rem * l
    ensures 0 <= q + r * l < W
    ensures (q + r * l) * b + rem == w + r * W
  {
    assert (q * b + rem) * l == q * (l * b) + rem * l;
    assert (q + r * l) * b == q * b + r * (l * b);
    MulStep(r, b, l);
    MulMono(0, r, l);
    assert b * l == l * b;
  }

  lemma RightStep(D: seq<mpw>, i: nat, b: int, before: seq<mpw>, r: int, z: mpw, rem: int)
    requires i < |D| && |before| == i
    requires Val(before) * b + r == Val(D[..i])
    requires z as int * b + rem == D[i] as int + r * W
    ensures Val(before + [z]) * b + rem == Val(D[..i + 1])
  {
    hide Val, P;
    ValSnoc(before + [z]);
    ValSnoc(D[..i + 1]);
    assert (before + [z])[..i] == before && D[..i + 1][..i] == D[..i];
    var v: int, z': int := Val(before), z;
    assert (v * W + z') * b == (v * b) * W + z' * b;
  }

  /** Shifts the most significant bit of a non-zero number to the top. */
  method MpNorm(size: nat, data: array<mpw>, o: nat) returns (shift: nat)
    requires o + size <= data.Length
    modifies data
    ensures Val(data[o..o + size]) == old(Val(data[o..o + size])) * P2(shift)
    ensures old(Val(data[o..o + size])) > 0 ==> size > 0 && data[o] >= W / 2
    ensures LeadingZeros(old(data[o..o + size]), shift)
    ensures old(size > 0 && data[o] != 0) ==> shift < MP_WBITS
    ensures Framed(data, o, o + size)
  {
    hide Val, P, P2;
    ghost var D := data[o..o + size];
    shift := MpMszCnt(size, data, o);
    MpLShift(size, data, o, shift);
    Normalized(D, shift, data[o..o + size]);
  }

  lemma Normalized(D: seq<mpw>, z: nat, E: seq<mpw>)
    requires |E| == |D| && LeadingZeros(D, z) && Val(E) == Val(D) * P2(z) % P(|D|)
    ensures Val(E) == Val(D) * P2(z)
    ensures Val(D) > 0 ==> |E| > 0 && E[0] >= W / 2
  {
    hide Val, P, P2;
    if Val(D) == 0 {
      DivModUnique(0, P(|D|), 0, 0);
    } else {
      var k := MP_WBITS * |D| - z - 1;
      HalfOfP(|D|, k, z);
      UpToTop(Val(D), P2(k), P2(z), P(|D|));
      TopHalf(E);
    }
  }

  lemma HalfOfP(n: nat, k: nat, z: nat)
    requires k + z + 1 == MP_WBITS * n
    ensures P(n) == 2 * (P2(k) * P2(z))
    ensures P2(k + 1) == 2 * P2(k)
  {
    hide P, P2;
    PIsP2(n);
    P2Add(k, z);
    P2Succ(k + z);
    P2Succ(k);
  }

  lemma UpToTop(d: int, e: int, f: int, p: int)
    requires 0 < e <= d < 2 * e && 0 < f && 2 * (e * f) == p
    ensures d * f % p == d * f && p <= 2 * (d * f)
  {
    MulMono(e, d, f);
    MulStep(d, 2 * e, f);
    assert (2 * e) * f == 2 * (e * f);
    MulPos(d, f);
    DivModUnique(d * f, p, 0, d * f);
  }

  lemma TopHalf(E: seq<mpw>)
    requires |E| > 0
    ensures 2 * Val(E) >= P(|E|) <==> E[0] >= W / 2
  {
    SValBounds(E);
  }

  // ----- removing trailing zeros

  /** Shifts out the trailing zero bits of a non-zero number and returns how many there were. */
  method MpRShiftLsz(size: nat, data: array<mpw>, o: nat) returns (zbits: nat)
    requires o + size <= data.Length
    requires Val(data[o..o + size]) != 0
    modifies data
    ensures Val(data[o..o + size]) * P2(zbits) == old(Val(data[o..o + size]))
    ensures Val(data[o..o + size]) % 2 == 1
    ensures Framed(data, o, o + size)
  {
    hide Val, P, P2;
    ghost var D := data[o..o + size];
    ValZero(D);
    P2Succ(0);
    // count all-zero words
    var zwords := 0;
    while data[o + size - 1 - zwords] == 0
      invariant 0 <= zwords < size
      invariant forall i :: size - zwords <= i < size ==> D[i] == 0
      decreases size - zwords
    {
      assert D[size - 1 - zwords] == 0;
      zwords := zwords + 1;
    }
    // count the trailing zero bits of the first other word
    var rbits, carry := TrailingZeros(data[o + size - 1 - zwords]);
    if rbits == 0 && zwords == 0 {
      OddNumber(D);
      return 0;
    }
    zbits := MP_WBITS * zwords + rbits;
    assert forall i :: o + size - zwords <= i < o + size ==> data[i] == D[i - o];
    SquashAndFill(size, data, o, zwords, rbits, carry);
  }

  method SquashAndFill(size: nat, data: array<mpw>, o: nat, zwords: nat, rbits: nat, odd: mpw)
    requires o + size <= data.Length && zwords < size && rbits < MP_WBITS
    requires rbits > 0 || zwords > 0
    requires odd as int * P2(rbits) == data[o + size - 1 - zwords] as int && odd % 2 == 1
    requires forall i :: o + size - zwords <= i < o + size ==> data[i] == 0
    modifies data
    ensures Val(data[o..o + size]) * P2(MP_WBITS * zwords + rbits) == old(Val(data[o..o + size]))
    ensures Val(data[o..o + size]) % 2 == 1
    ensures Framed(data, o, o + size)
  {
    hide Val, P, P2;
    ghost var D, m := data[o..o + size], size - zwords;
    assert forall i :: m <= i < size ==> D[i] == 0;
    var k := size - zwords - 1;
    SquashRight(size, data, o, k, rbits, odd);
    ghost var S := data[o + zwords..o + size];
    assert o + size - 1 - k == o + zwords && D[..m] == old(data[o..o + m]);
    MpZero(zwords, data, o);
    ghost var Z := data[o..o + size];
    assert S == data[o + zwords..o + size];
    assert Z[zwords..] == data[o + zwords..o + size] && Z[..zwords] == data[o..o + zwords];
    Squashed(D, zwords, rbits, Z);
  }

  method TrailingZeros(w: mpw) returns (rbits: nat, odd: mpw)
    requires w != 0
    ensures rbits < MP_WBITS && odd % 2 == 1
    ensures odd as int * P2(rbits) == w as int
  {
    hide P2;
    P2Succ(0);
    odd, rbits := w, 0;
    NotTooFar(odd, 0, odd);
    while odd % 2 == 0
      invariant 0 < odd && rbits < MP_WBITS
      invariant odd as int * P2(rbits) == w as int
      decreases odd
    {
      P2Succ(rbits);
      var half: mpw := odd / 2;
      assert (2 * half as int) * P2(rbits) == half as int * (2 * P2(rbits));
      odd, rbits := half, rbits + 1;
      NotTooFar(odd, rbits, w);
    }
  }

  lemma OddNumber(D: seq<mpw>)
    requires |D| > 0
    ensures Val(D) % 2 == D[|D| - 1] % 2
  {
    hide Val;
    ValSnoc(D);
  }

  method MpEven(size: nat, data: array<mpw>, o: nat) returns (b: bool)
    requires 0 < size && o + size <= data.Length
    ensures b <==> Val(data[o..o + size]) % 2 == 0
  {
    hide Val;
    OddNumber(data[o..o + size]);
    b := data[o + size - 1] % 2 == 0;
  }

  /** Sets the least significant bit. */
  method MpSetLsb(size: nat, data: array<mpw>, o: nat)
    requires 0 < size && o + size <= data.Length
    modifies data
    ensures Val(data[o..o + size]) == old(Val(data[o..o + size])) + (1 - old(Val(data[o..o + size])) % 2)
    ensures Framed(data, o, o + size)
  {
    hide Val;
    ghost var D := data[o..o + size];
    data[o + size - 1] := data[o + size - 1] - data[o + size - 1] % 2 + 1;
    OddNumber(D);
    ValSnoc(D);
    ValSnoc(data[o..o + size]);
    assert data[o..o + size][..size - 1] == D[..size - 1];
    FrameWindows(old(data[..]), data[..], o, o + size);
  }

  /** Moves the words up to index k to the least significant end, shifting right by rbits;
      carry is the shifted word at index k. */
  method SquashRight(size: nat, data: array<mpw>, o: nat, k: nat, rbits: nat, odd: mpw)
    requires o + size <= data.Length && k < size && rbits < MP_WBITS
    requires rbits > 0 || k + 1 < size
    requires odd as int * P2(rbits) == data[o + k] as int && odd % 2 == 1
    modifies data
    ensures Val(data[o + size - 1 - k..o + size]) * P2(rbits) == old(Val(data[o..o + k + 1]))
    ensures data[o + size - 1] % 2 == 1
    ensures Framed(data, o + size - 1 - k, o + size)
  {
    hide Val, P, P2, ShiftedOut;
    ghost var D, end := data[o..o + k + 1], o + size;
    var carry := SquashWords(size, data, o, k, rbits, odd);
    ghost var tail := data[end - k..end];
    data[o + size - 1 - k] := carry;
    assert data[o + size - 1 - k..end] == [carry] + tail;
    LastSquash(tail, carry, rbits, D);
    FrameWindows(old(data[..]), data[..], o + size - 1 - k, o + size);
  }

  /** The shifting loop of mprshiftlsz. */
  method SquashWords(size: nat, data: array<mpw>, o: nat, k: nat, rbits: nat, odd: mpw) returns (carry: mpw)
    requires o + size <= data.Length && k < size && rbits < MP_WBITS
    requires rbits > 0 || k + 1 < size
    requires odd as int * P2(rbits) == data[o + k] as int && odd % 2 == 1
    modifies data
    ensures ShiftedOut(data[o + size - k..o + size], carry, rbits, old(data[o..o + k + 1]))
    ensures if k == 0 then carry % 2 == 1 else data[o + size - 1] % 2 == 1
    ensures Framed(data, o + size - k, o + size)
  {
    hide Val, P, P2, ShiftedOut;
    ghost var D, end := data[o..o + k + 1], o + size;
    var lbits := MP_WBITS - rbits;
    carry := odd;
    var i, dst := k, o + size;
    FirstSquash(D, odd, data[dst..end], rbits);
    OddBelow(odd, rbits);
    while i > 0
      invariant 0 <= i <= k && dst == o + size - (k - i)
      invariant carry as int < P2(lbits)
      invariant ShiftedOut(data[dst..end], carry, rbits, D[i..])
      invariant i == k ==> carry % 2 == 1
      invariant i < k ==> data[end - 1] % 2 == 1
      invariant Kept(data, dst, end)
    {
      ghost var tail, c := data[dst..end], carry;
      i, dst := i - 1, dst - 1;
      data[dst], carry := ShiftWord(data[o + i], lbits, carry);
      assert data[dst..end] == [data[dst]] + tail;
      SquashStep(D, i, rbits, data[dst], tail, c, carry);
    }
    assert D[0..] == D;
    FrameWindows(old(data[..]), data[..], o + size - k, o + size);
  }

  /** The words in tail and the word c on top are s shifted right by rbits, nothing lost. */
  ghost predicate ShiftedOut(tail: seq<mpw>, c: mpw, rbits: nat, s: seq<mpw>) {
    (Val(tail) + c * P(|tail|)) * P2(rbits) == Val(s)
  }

  lemma LastSquash(tail: seq<mpw>, c: mpw, rbits: nat, s: seq<mpw>)
    requires ShiftedOut(tail, c, rbits, s)
    ensures Val([c] + tail) * P2(rbits) == Val(s)
  {
    hide Val, P, P2;
    ValCons([c] + tail);
    assert ([c] + tail)[1..] == tail;
  }

  lemma FirstSquash(D: seq<mpw>, odd: mpw, s: seq<mpw>, rbits: nat)
    requires |D| > 0 && |s| == 0
    requires odd as int * P2(rbits) == D[|D| - 1] as int
    ensures ShiftedOut(s, odd, rbits, D[|D| - 1..])
  {
    hide P2;
    ValOne(D[|D| - 1..]);
    assert Val(s) + odd * P(0) == odd;
  }

  lemma OddBelow(odd: mpw, rbits: nat)
    requires rbits <= MP_WBITS && odd as int * P2(rbits) < W
    ensures odd as int < P2(MP_WBITS - rbits)
  {
    hide P2;
    P2Add(MP_WBITS - rbits, rbits);
    P2Word();
    if odd as int >= P2(MP_WBITS - rbits) {
      MulMono(P2(MP_WBITS - rbits), odd, P2(rbits));
    }
  }

  lemma EvenShift(w: mpw, b: nat, c: mpw)
    requires 0 < b <= MP_WBITS && c as int < P2(b)
    ensures 0 <= Shl(w, b) as int + c as int < W
    ensures c % 2 == 1 ==> (Shl(w, b) as int + c as int) % 2 == 1
  {
    hide P2, Shl, Shr;
    P2Succ(b - 1);
    Rotate(w, b);
    var n, q: int := w as int * P2(b - 1), Shr(w, MP_WBITS - b);
    assert w as int * P2(b) == 2 * n;
    Twice(Shl(w, b), n - q * (W / 2), c);
  }

  lemma Twice(a: int, h: int, c: int)
    requires a == 2 * h
    ensures (a + c) % 2 == c % 2
  {
  }

  lemma SquashStep(D: seq<mpw>, i: nat, rbits: nat, z: mpw, tail: seq<mpw>, c: mpw, c': mpw)
    requires i + 1 < |D| && rbits <= MP_WBITS && |tail| == |D| - i - 2
    requires z as int + c' * W == D[i] as int * P2(MP_WBITS - rbits) + c as int
    requires ShiftedOut(tail, c, rbits, D[i + 1..])
    ensures ShiftedOut([z] + tail, c', rbits, D[i..])
  {
    hide Val, P, P2;
    var d: int, l, b, p := D[i], P2(MP_WBITS - rbits), P2(rbits), P(|tail|);
    P2Add(MP_WBITS - rbits, rbits);
    P2Word();
    PSucc(|tail|);
    Carry(z, tail, c, c', d * l, Val(tail) + c * p);
    ValCons(D[i..]);
    assert D[i..][1..] == D[i + 1..];
    MulSum(Val(tail) + c * p, (d * l) * p, b);
    assert ((d * l) * p) * b == d * ((l * b) * p);
  }

  lemma Squashed(D: seq<mpw>, zwords: nat, rbits: nat, Z: seq<mpw>)
    requires |Z| == |D| && zwords < |D|
    requires forall i :: |D| - zwords <= i < |D| ==> D[i] == 0
    requires Val(Z[..zwords]) == 0 && Z[|D| - 1] % 2 == 1
    requires Val(Z[zwords..]) * P2(rbits) == Val(D[..|D| - zwords])
    ensures Val(Z) * P2(MP_WBITS * zwords + rbits) == Val(D) && Val(Z) % 2 == 1
  {
    hide Val, P, P2;
    var m := |D| - zwords;
    ValSplit(D, m);
    ValZero(D[m..]);
    ValSplit(Z, zwords);
    OddNumber(Z);
    PIsP2(zwords);
    P2Add(MP_WBITS * zwords, rbits);
    assert Val(Z) * (P(zwords) * P2(rbits)) == (Val(Z) * P2(rbits)) * P(zwords);
  }

  /** The number of significant bits. */
  method MpBits(size: nat, data: array<mpw>, o: nat) returns (bits: nat)
    requires o + size <= data.Length
    ensures Val(data[o..o + size]) < P2(bits)
    ensures bits == 0 <==> Val(data[o..o + size]) == 0
    ensures bits > 0 ==> P2(bits - 1) <= Val(data[o..o + size])
    ensures bits <= MP_WBITS * size
  {
    hide Val, P, P2;
    P2Succ(0);
    var zeros := MpMszCnt(size, data, o);
    bits := MP_WBITS * size - zeros;
    if bits > 0 {
      P2Succ(bits - 1);
    }
  }
}
