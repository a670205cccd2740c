/**
  The streaming hash of sha256.c. The compression function is arbitrary: what is modelled is
  how a message reaches it, in any number of pieces, through a buffer.
 */
module Sha256 {
  import opened Words
  import opened Bytes

  const BLOCKSIZE: nat := 64
  const DIGESTSIZE: nat := 32

  const HINIT: HashState := [
    0x6a09e667, 0xbb67ae85, 0x3c6ef372, 0xa54ff53a, 0x510e527f, 0x9b05688c, 0x1f83d9ab, 0x5be0cd19
  ]

  type HashState = h: seq<uint32> | |h| == 8 witness [0, 0, 0, 0, 0, 0, 0, 0]
  type Compression = (HashState, seq<byte>) -> HashState

  // ----- the hash of a message

  /** The compression function over the blocks of a string. */
  function Fold(c: Compression, h: HashState, s: seq<byte>): HashState
    requires |s| % BLOCKSIZE == 0
  {
    if |s| == 0 then h
    else
      var n := |s| - BLOCKSIZE;
      c(Fold(c, h, s[..n]), s[n..])
  }

  /** The states that the blocks lead through, one after the other. */
  lemma {:induction false} FoldStates(c: Compression, h: HashState, s: seq<byte>) returns (t: seq<HashState>)
    requires |s| % BLOCKSIZE == 0
    ensures |t| == |s| / BLOCKSIZE + 1 && t[0] == h && t[|t| - 1] == Fold(c, h, s)
    ensures forall i :: 0 <= i < |t| - 1 ==> t[i + 1] == c(t[i], s[BLOCKSIZE * i..BLOCKSIZE * i + BLOCKSIZE])
    decreases |s|
  {
    if |s| == 0 {
      t := [h];
    } else {
      var n := |s| - BLOCKSIZE;
      var u := FoldStates(c, h, s[..n]);
      var m := |u| - 1;
      t := u + [c(u[m], s[n..])];
      assert s[BLOCKSIZE * m..BLOCKSIZE * m + BLOCKSIZE] == s[n..];
      forall i | 0 <= i < m
        ensures t[i + 1] == c(t[i], s[BLOCKSIZE * i..BLOCKSIZE * i + BLOCKSIZE])
      {
        assert s[..n][BLOCKSIZE * i..BLOCKSIZE * i + BLOCKSIZE] == s[BLOCKSIZE * i..BLOCKSIZE * i + BLOCKSIZE];
      }
    }
  }

  /** How many zero bytes bring the message, a byte and the length to whole blocks. */
  function Zeros(n: nat): (k: nat)
    ensures k < BLOCKSIZE && (n + 1 + k + 8) % BLOCKSIZE == 0
  {
    if n % BLOCKSIZE < 56 then 55 - n % BLOCKSIZE else 119 - n % BLOCKSIZE
  }

  /** The length in bits, as the 64-bit counter has it. */
  function BitLength(n: nat): (w: mpw) {
    8 * n % W
  }

  function Padding(n: nat): seq<byte> {
    [0x80] + Repeat(0, Zeros(n)) + BigEndian(BitLength(n), 8)
  }

  function Padded(m: seq<byte>): (s: seq<byte>)
    ensures |s| % BLOCKSIZE == 0
  {
    m + Padding(|m|)
  }

  /** No fewer zero bytes would do. */
  lemma ZerosLeast(n: nat, k: nat)
    requires (n + 1 + k + 8) % BLOCKSIZE == 0
    ensures k >= Zeros(n)
  {
  }

  /** The message, a one bit, zero bits and the length in bits, modulo 2^64. */
  lemma PaddedLayout(m: seq<byte>)
    ensures var s, n := Padded(m), |m|;
            && n + 9 <= |s| < n + 73 && |s| % 64 == 0 && s[..n] == m && s[n] == 0x80
            && (forall i :: n < i < |s| - 8 ==> s[i] == 0)
            && OctetVal(s[|s| - 8..]) == 8 * n % 0x1_0000_0000_0000_0000
  {
    hide BigEndian, Zeros;
    var n := |m|;
    var length := BigEndian(BitLength(n), 8);
    BigEndianValue(BitLength(n), 8);
    EightBytes();
    var front := m + [0x80] + Repeat(0, Zeros(n));
    assert Padded(m) == front + length;
    assert (front + length)[|front|..] == length;
    Reduced(8 * n);
  }

  lemma Reduced(v: int)
    ensures v % W % W == v % W
  {
  }

  /** Different messages of less than 2^61 bytes are different after padding. */
  lemma PaddedInjective(a: seq<byte>, b: seq<byte>)
    requires 8 * |a| < W && 8 * |b| < W && Padded(a) == Padded(b)
    ensures a == b
  {
    hide Padded, BigEndian;
    PaddedEnds(a);
    PaddedEnds(b);
    BigEndianInjective(8 * |a|, 8 * |b|);
  }

  /** A padded message begins with the message and ends in its length. */
  lemma PaddedEnds(m: seq<byte>)
    requires 8 * |m| < W
    ensures var s := Padded(m); |s| >= |m| + 8 && s[..|m|] == m && s[|s| - 8..] == BigEndian(8 * |m|, 8)
  {
    hide BigEndian, Zeros;
    var front := [0x80] + Repeat(0, Zeros(|m|));
    var length := BigEndian(BitLength(|m|), 8);
    assert BitLength(|m|) == 8 * |m|;
    assert Padded(m) == m + front + length;
  }

  lemma BigEndianInjective(v: nat, w: nat)
    requires v < W && w < W && BigEndian(v, 8) == BigEndian(w, 8)
    ensures v == w
  {
    hide ByteAt;
    EightBytes();
    forall i: nat | i < 8
      ensures ByteAt(v, i) == ByteAt(w, i)
    {
      assert BigEndian(v, 8)[7 - i] == ByteAt(v, i);
      assert BigEndian(w, 8)[7 - i] == ByteAt(w, i);
    }
    BytesDetermine(v, w, 8);
  }

  lemma EightBytes()
    ensures B(8) == W
  {
    assert B(4) == 0x1_0000_0000;
  }

  /** Eight words, big-endian. */
  function Encode(h: seq<uint32>): (s: seq<byte>)
    ensures |s| == 4 * |h|
  {
    if |h| == 0 then [] else Encode(h[..|h| - 1]) + BigEndian(h[|h| - 1], 4)
  }

  /** Four bytes for each word, the most significant one first. */
  lemma {:induction false} EncodedWords(h: seq<uint32>, i: nat)
    requires i < |h|
    ensures OctetVal(Encode(h)[4 * i..4 * i + 4]) == h[i]
  {
    hide BigEndian, OctetVal;
    var n := |h| - 1;
    var e, last := Encode(h[..n]), BigEndian(h[n], 4);
    assert Encode(h) == e + last;
    if i == n {
      assert (e + last)[4 * i..4 * i + 4] == last;
      FourBytes(h[n]);
    } else {
      assert (e + last)[4 * i..4 * i + 4] == e[4 * i..4 * i + 4];
      EncodedWords(h[..n], i);
    }
  }

  lemma FourBytes(w: uint32)
    ensures OctetVal(BigEndian(w, 4)) == w
  {
    BigEndianValue(w, 4);
    assert B(4) == 0x1_0000_0000;
  }

  /** The initial state holds the first 32 fractional bits of the square roots of the first eight primes. */
  lemma InitialState()
    ensures var primes: seq<int>, roots: seq<int> := [2, 3, 5, 7, 11, 13, 17, 19], [1, 1, 2, 2, 3, 3, 4, 4];
            forall i :: 0 <= i < 8 ==>
              var r: int := roots[i] * 0x1_0000_0000 + HINIT[i];
              r * r <= primes[i] * 0x1_0000_0000_0000_0000 < (r + 1) * (r + 1)
  {
  }

  /** The hash of a whole message. */
  function Hash(c: Compression, m: seq<byte>): (s: seq<byte>)
    ensures |s| == DIGESTSIZE
  {
    Encode(Fold(c, HINIT, Padded(m)))
  }

  /** The state after a message: its whole blocks are folded, the rest is buffered. */
  ghost predicate Absorbed(c: Compression, m: seq<byte>, h: HashState, buffer: seq<byte>) {
    && |buffer| < BLOCKSIZE && |buffer| <= |m| && (|m| - |buffer|) % BLOCKSIZE == 0
    && buffer == m[|m| - |buffer|..]
    && h == Fold(c, HINIT, m[..|m| - |buffer|])
  }

  lemma Absorb(c: Compression, m: seq<byte>, h: HashState, buffer: seq<byte>, chunk: seq<byte>)
    requires Absorbed(c, m, h, buffer) && |buffer| + |chunk| <= BLOCKSIZE
    ensures |buffer| + |chunk| < BLOCKSIZE ==> Absorbed(c, m + chunk, h, buffer + chunk)
    ensures |buffer| + |chunk| == BLOCKSIZE ==> Absorbed(c, m + chunk, c(h, buffer + chunk), [])
  {
    var s := m + chunk;
    var n := |m| - |buffer|;
    assert s[..n] == m[..n];
    assert s[n..] == buffer + chunk;
    if |buffer| + |chunk| == BLOCKSIZE {
      assert s[..|s|] == s;
      assert s[|s| - BLOCKSIZE..] == s[n..];
      assert Fold(c, HINIT, s) == c(Fold(c, HINIT, s[..n]), s[n..]);
      assert s[|s|..] == [];
    }
  }

  lemma AbsorbedNothing(c: Compression)
    ensures Absorbed(c, [], HINIT, [])
  {
  }

  lemma AbsorbedBlocks(c: Compression, m: seq<byte>, h: HashState)
    requires Absorbed(c, m, h, [])
    ensures |m| % BLOCKSIZE == 0 && h == Fold(c, HINIT, m)
  {
    assert m[..|m|] == m;
  }

  lemma BufferSize(c: Compression, m: seq<byte>, h: HashState, buffer: seq<byte>)
    requires Absorbed(c, m, h, buffer)
    ensures |buffer| == |m| % BLOCKSIZE
  {
  }

  lemma LastBlock(c: Compression, m: seq<byte>, h: HashState, buffer: seq<byte>, chunk: seq<byte>)
    requires Absorbed(c, m, h, buffer) && |buffer| + |chunk| == BLOCKSIZE
    ensures |m + chunk| % BLOCKSIZE == 0 && c(h, buffer + chunk) == Fold(c, HINIT, m + chunk)
  {
    hide Fold, Absorbed;
    Absorb(c, m, h, buffer, chunk);
    AbsorbedBlocks(c, m + chunk, c(h, buffer + chunk));
  }

  // ----- the parameter block

  class Sha256Param {
    const compress: Compression
    const h: array<uint32>
    const data: array<byte>
    var length: mpw
    var offset: nat
    /** What has been hashed since the last reset. */
    ghost var message: seq<byte>

    ghost predicate Allocated() {
      h.Length == 8 && data.Length == 4 * 64
    }

    ghost predicate Holds(m: seq<byte>)
      reads this`offset, h, data
    {
      && Allocated() && offset <= BLOCKSIZE
      && Absorbed(compress, m, h[..], data[..offset])
    }

    ghost predicate Valid()
      reads this, h, data
    {
      Holds(message) && length == BitLength(|message|)
    }

    constructor (compress: Compression)
      ensures Valid() && message == [] && this.compress == compress && fresh(h) && fresh(data)
    {
      this.compress := compress;
      h := new uint32[8];
      data := new byte[4 * 64];
      new;
      Reset();
    }

    method Reset()
      requires Allocated()
      modifies this, h, data
      ensures Valid() && message == []
    {
      var i := 0;
      while i < 8
        invariant i <= 8 && forall j :: 0 <= j < i ==> h[j] == HINIT[j]
      {
        h[i] := HINIT[i];
        i := i + 1;
      }
      i := 0;
      while i < data.Length
        invariant i <= data.Length
        modifies data
      {
        data[i] := 0;
        i := i + 1;
      }
      assert h[..] == HINIT;
      length := 0;
      offset := 0;
      message := [];
      AbsorbedNothing(compress);
      assert data[..0] == [];
    }

    /** The compression function on the first block of the buffer, which is then overwritten
        with whatever the function leaves there. */
    method Process()
      requires Allocated()
      modifies h, data
      ensures h[..] == compress(old(h[..]), old(data[..BLOCKSIZE]))
    {
      var r := compress(h[..], data[..BLOCKSIZE]);
      var i := 0;
      while i < data.Length
        invariant i <= data.Length && h[..] == old(h[..])
        modifies data
      {
        data[i] := *;
        i := i + 1;
      }
      i := 0;
      while i < 8
        invariant i <= 8 && forall j :: 0 <= j < i ==> h[j] == r[j]
        modifies h
      {
        h[i] := r[i];
        i := i + 1;
      }
      assert h[..] == r;
    }

    /** Appends as much of the input as fits into the buffer. */
    method Take(s: array<byte>, o: nat, n: nat, ghost m: seq<byte>)
      requires Holds(m) && offset + n <= BLOCKSIZE && o + n <= s.Length && s != data
      modifies this`offset, h, data
      ensures offset < BLOCKSIZE && Holds(m + s[o..o + n])
    {
      hide Fold;
      ghost var buffer := data[..offset];
      var i := 0;
      while i < n
        invariant i <= n && data[..offset + i] == buffer + s[o..o + i]
        modifies data
      {
        data[offset + i] := s[o + i];
        i := i + 1;
      }
      offset := offset + n;
      Absorb(compress, m, h[..], buffer, s[o..o + n]);
      if offset == BLOCKSIZE {
        Process();
        offset := 0;
      }
    }

    /** Hashes size more bytes, however they fall on the blocks. */
    method Update(s: array<byte>, o: nat, size: nat)
      requires Valid() && o + size <= s.Length && s != data
      modifies this, h, data
      ensures Valid() && message == old(message) + s[o..o + size]
    {
      hide Holds;
      ghost var m, S := message, s[o..o + size];
      length := AddLength(length, size);
      LengthSum(|m|, size);
      OffsetInBlock(m);
      var done := 0;
      assert m + S[..0] == m;
      while done < size
        invariant done <= size && message == m && Holds(m + S[..done]) && offset < BLOCKSIZE
        invariant length == BitLength(|m| + size) && s[o..o + size] == S
      {
        var n := if offset + (size - done) > BLOCKSIZE then BLOCKSIZE - offset else size - done;
        ghost var next := s[o + done..o + done + n];
        Take(s, o + done, n, m + S[..done]);
        assert (m + S[..done]) + next == m + S[..done + n];
        done := done + n;
      }
      assert S[..size] == S;
      message := m + S;
    }

    /** Fills the buffer with zero bytes up to index n. */
    method ZeroTo(n: nat)
      requires Allocated() && offset <= n <= BLOCKSIZE
      modifies this`offset, data
      ensures offset == n && data[..n] == old(data[..offset]) + Repeat(0, n - old(offset))
    {
      ghost var buffer := data[..offset];
      while offset < n
        invariant old(offset) <= offset <= n
        invariant data[..offset] == buffer + Repeat(0, offset - old(offset))
      {
        data[offset] := 0;
        offset := offset + 1;
      }
    }

    /** Writes the length behind the padding. */
    method WriteLength()
      requires Allocated()
      modifies data
      ensures data[..BLOCKSIZE] == old(data[..56]) + BigEndian(length, 8)
    {
      ghost var buffer := data[..56];
      var i := 0;
      while i < 8
        invariant i <= 8 && data[..56 + i] == buffer + BigEndian(length, 8)[..i]
        modifies data
      {
        data[56 + i] := ByteAt(length, 7 - i);
        i := i + 1;
      }
      assert BigEndian(length, 8)[..8] == BigEndian(length, 8);
    }

    /** Pads the message, in one block or in two. */
    method Finish()
      requires Valid()
      modifies this, h, data
      ensures h[..] == Fold(compress, HINIT, Padded(old(message))) && Allocated()
    {
      hide Fold, Absorbed, Hash, BigEndian;
      ghost var m, buffer, state := message, data[..offset], h[..];
      ghost var all := BigEndian(length, 8);
      BufferSize(compress, m, state, buffer);
      data[offset] := 0x80;
      offset := offset + 1;
      assert data[..offset] == buffer + [0x80];
      if offset > 56 {
        ghost var first := [0x80] + Repeat(0, 63 - |buffer|);
        ZeroTo(BLOCKSIZE);
        assert data[..BLOCKSIZE] == buffer + first;
        Absorb(compress, m, state, buffer, first);
        Process();
        offset := 0;
        ghost var between := h[..];
        ZeroTo(56);
        WriteLength();
        ghost var second := Repeat(0, 56) + all;
        assert data[..BLOCKSIZE] == [] + second;
        LastBlock(compress, m + first, between, [], second);
        assert (m + first) + second == Padded(m);
      } else {
        ghost var only := [0x80] + Repeat(0, 55 - |buffer|) + all;
        ZeroTo(56);
        WriteLength();
        assert data[..BLOCKSIZE] == buffer + only;
        LastBlock(compress, m, state, buffer, only);
        assert m + only == Padded(m);
      }
      Process();
      offset := 0;
    }

    /** Delivers the hash of everything since the last reset, and resets. */
    method Digest(result: array<byte>)
      requires Valid() && result.Length >= DIGESTSIZE && result != data
      modifies this, h, data, result
      ensures result[..DIGESTSIZE] == Hash(compress, old(message))
      ensures forall i {:trigger OctetVal(result[4 * i..4 * i + 4])} :: 0 <= i < 8 ==>
                OctetVal(result[4 * i..4 * i + 4]) == Fold(compress, HINIT, Padded(old(message)))[i]
      ensures result[DIGESTSIZE..] == old(result[DIGESTSIZE..])
      ensures Valid() && message == []
    {
      hide Fold, Absorbed, Padded, Valid;
      ghost var digest, state := Hash(compress, message), Fold(compress, HINIT, Padded(message));
      Finish();
      WriteState(result);
      assert result[..DIGESTSIZE] == digest;
      ghost var written := result[..DIGESTSIZE];
      forall i | 0 <= i < 8
        ensures OctetVal(result[4 * i..4 * i + 4]) == state[i]
      {
        EncodedWords(state, i);
        assert written[4 * i..4 * i + 4] == result[4 * i..4 * i + 4];
      }
      Reset();
    }

    method WriteState(result: array<byte>)
      requires Allocated() && result.Length >= DIGESTSIZE && result != data
      modifies result
      ensures result[..DIGESTSIZE] == Encode(h[..])
      ensures result[DIGESTSIZE..] == old(result[DIGESTSIZE..])
    {
      var i := 0;
      while i < 8
        invariant i <= 8 && result[..4 * i] == Encode(h[..i])
        invariant result[DIGESTSIZE..] == old(result[DIGESTSIZE..])
        modifies result
      {
        ghost var before := result[..4 * i];
        result[4 * i], result[4 * i + 1] := ByteAt(h[i], 3), ByteAt(h[i], 2);
        result[4 * i + 2], result[4 * i + 3] := ByteAt(h[i], 1), ByteAt(h[i], 0);
        assert result[..4 * i] == before;
        assert h[..i + 1][..i] == h[..i];
        assert result[4 * i..4 * i + 4] == BigEndian(h[i], 4);
        assert result[..4 * i + 4] == result[..4 * i] + result[4 * i..4 * i + 4];
        i := i + 1;
      }
      assert h[..8] == h[..];
    }

    lemma OffsetInBlock(m: seq<byte>)
      requires Holds(m)
      ensures offset < BLOCKSIZE
    {
    }
  }

  /** The length in bits after size more bytes, in a word. */
  function AddLength(length: mpw, size: nat): mpw {
    (length as int + 8 * size % W) % W
  }

  lemma LengthSum(n: nat, size: nat)
    ensures AddLength(BitLength(n), size) == BitLength(n + size)
  {
  }
}
