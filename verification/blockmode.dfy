/** Cipher block chaining (blockmode.c) with the cipher of blowfish.c, on blocks of two words. */
module BlockMode {
  import opened Blowfish

  // ----- chaining, for any block cipher

  type Text = seq<bv32>
  type Cipher = Block -> Block

  function XorBlock(a: Block, b: Block): Block {
    [Xor(a[0], b[0]), Xor(a[1], b[1])]
  }

  /** The cipher blocks of whole blocks of text. */
  function CbcEncrypt(e: Cipher, iv: Block, s: Text): (c: Text)
    requires |s| % 2 == 0
    ensures |c| == |s|
    decreases |s|
  {
    if |s| == 0 then []
    else
      var c := e(XorBlock(s[..2], iv));
      c + CbcEncrypt(e, c, s[2..])
  }

  function CbcDecrypt(d: Cipher, iv: Block, c: Text): (s: Text)
    requires |c| % 2 == 0
    ensures |s| == |c|
    decreases |c|
  {
    if |c| == 0 then []
    else XorBlock(d(c[..2]), iv) + CbcDecrypt(d, c[..2], c[2..])
  }

  /** The block that the next call chains to: the last cipher block so far. */
  function Feedback(iv: Block, c: Text): Block
    requires |c| % 2 == 0
  {
    if |c| == 0 then iv else c[|c| - 2..]
  }

  ghost predicate Inverts(d: Cipher, e: Cipher) {
    forall b: Block :: d(e(b)) == b
  }

  lemma XorBlockTwice(a: Block, b: Block)
    ensures XorBlock(XorBlock(a, b), b) == a
  {
    hide Xor;
    XorTwice(a[0], b[0]);
    XorTwice(a[1], b[1]);
  }

  /** Decryption restores the text from the same initial block. */
  lemma {:induction false} CbcRoundTrip(e: Cipher, d: Cipher, iv: Block, s: Text)
    requires Inverts(d, e) && |s| % 2 == 0
    ensures CbcDecrypt(d, iv, CbcEncrypt(e, iv, s)) == s
    decreases |s|
  {
    hide Xor;
    if |s| > 0 {
      var first: Block := s[..2];
      var c: Block := e(XorBlock(first, iv));
      var rest := CbcEncrypt(e, c, s[2..]);
      assert (c + rest)[..2] == c && (c + rest)[2..] == rest;
      XorBlockTwice(first, iv);
      CbcRoundTrip(e, d, c, s[2..]);
      assert s == first + s[2..];
    }
  }

  /** Block k of the cipher text is the cipher of block k of the text, combined bit by bit with the cipher block f
      before it, or with the initial block. */
  lemma CbcCipherBlock(e: Cipher, iv: Block, s: Text, k: nat, a: Block, f: Block, b: Block)
    requires |s| % 2 == 0 && 2 * k + 2 <= |s| && a == s[2 * k..2 * k + 2]
    requires f == if k == 0 then iv else CbcEncrypt(e, iv, s)[2 * k - 2..2 * k]
    requires b == [a[0] ^ f[0], a[1] ^ f[1]]
    ensures CbcEncrypt(e, iv, s)[2 * k..2 * k + 2] == e(b)
  {
    hide CbcEncrypt, XorBlock;
    CipherBlock(e, iv, s, k);
    XorBlockIs(a, f);
  }

  lemma XorBlockIs(a: Block, b: Block)
    ensures XorBlock(a, b) == [a[0] ^ b[0], a[1] ^ b[1]]
  {
    hide Xor;
    XorIs(a[0], b[0]);
    XorIs(a[1], b[1]);
  }

  lemma {:induction false} CipherBlock(e: Cipher, iv: Block, s: Text, k: nat)
    requires |s| % 2 == 0 && 2 * k + 2 <= |s|
    ensures var c := CbcEncrypt(e, iv, s);
            c[2 * k..2 * k + 2] == e(XorBlock(s[2 * k..2 * k + 2], if k == 0 then iv else c[2 * k - 2..2 * k]))
    decreases k
  {
    hide CbcEncrypt, XorBlock;
    var b: Block, rest := s[..2], s[2..];
    var c: Block := e(XorBlock(b, iv));
    CbcEncryptFirst(e, iv, b, rest);
    assert b + rest == s;
    var tail := CbcEncrypt(e, c, rest);
    if k > 0 {
      CipherBlock(e, c, rest, k - 1);
      TailBlocks(c, tail, k);
      assert rest[2 * k - 2..2 * k] == s[2 * k..2 * k + 2];
    }
  }

  lemma TailBlocks(c: Block, tail: Text, k: nat)
    requires k > 0 && 2 * k <= |tail|
    ensures (c + tail)[2 * k..2 * k + 2] == tail[2 * k - 2..2 * k]
    ensures (c + tail)[2 * k - 2..2 * k] == if k == 1 then c else tail[2 * k - 4..2 * k - 2]
  {
  }

  /** Block k of the text is the deciphered block k, combined in the same way. */
  lemma CbcPlainBlock(d: Cipher, iv: Block, c: Text, k: nat)
    requires |c| % 2 == 0 && 2 * k + 2 <= |c|
    ensures var s := CbcDecrypt(d, iv, c);
            var f: Block := if k == 0 then iv else c[2 * k - 2..2 * k];
            var p := d(c[2 * k..2 * k + 2]);
            s[2 * k..2 * k + 2] == [p[0] ^ f[0], p[1] ^ f[1]]
  {
    hide CbcDecrypt, Xor, XorBlock;
    PlainBlock(d, iv, c, k);
    var f: Block := if k == 0 then iv else c[2 * k - 2..2 * k];
    XorBlockIs(d(c[2 * k..2 * k + 2]), f);
  }

  lemma {:induction false} PlainBlock(d: Cipher, iv: Block, c: Text, k: nat)
    requires |c| % 2 == 0 && 2 * k + 2 <= |c|
    ensures CbcDecrypt(d, iv, c)[2 * k..2 * k + 2] ==
            XorBlock(d(c[2 * k..2 * k + 2]), if k == 0 then iv else c[2 * k - 2..2 * k])
    decreases k
  {
    hide CbcDecrypt, XorBlock;
    var b: Block, rest := c[..2], c[2..];
    CbcDecryptFirst(d, iv, b, rest);
    assert b + rest == c;
    if k > 0 {
      PlainBlock(d, b, rest, k - 1);
      TailBlocks(XorBlock(d(b), iv), CbcDecrypt(d, b, rest), k);
      TailBlocks(b, rest, k);
    }
  }

  /** Different initial blocks give different first cipher blocks. */
  lemma DifferentStarts(e: Cipher, d: Cipher, iv: Block, jv: Block, s: Text)
    requires Inverts(d, e) && |s| % 2 == 0 && |s| >= 2 && iv != jv
    ensures CbcEncrypt(e, iv, s)[..2] != CbcEncrypt(e, jv, s)[..2]
  {
    hide CbcEncrypt, XorBlock;
    CipherBlock(e, iv, s, 0);
    CipherBlock(e, jv, s, 0);
    var b: Block := s[0..2];
    var x, y := XorBlock(b, iv), XorBlock(b, jv);
    assert d(e(x)) == x && d(e(y)) == y;
    if x == y {
      XorBlockCancels(b, iv, jv);
    }
  }

  lemma XorBlockCancels(a: Block, b: Block, c: Block)
    requires XorBlock(a, b) == XorBlock(a, c)
    ensures b == c
  {
    hide Xor;
    assert Xor(a[0], b[0]) == XorBlock(a, b)[0] == Xor(a[0], c[0]);
    assert Xor(a[1], b[1]) == XorBlock(a, b)[1] == Xor(a[1], c[1]);
    XorCancels(a[0], b[0], c[0]);
    XorCancels(a[1], b[1], c[1]);
    assert b == [b[0], b[1]] && c == [c[0], c[1]];
  }

  lemma XorCancels(a: bv32, b: bv32, c: bv32)
    requires Xor(a, b) == Xor(a, c)
    ensures b == c
  {
  }

  /** Splitting the text over two calls makes no difference, because of the feedback. */
  lemma {:induction false} CbcEncryptSplit(e: Cipher, iv: Block, s: Text, t: Text)
    requires |s| % 2 == 0 && |t| % 2 == 0
    ensures var c := CbcEncrypt(e, iv, s);
            CbcEncrypt(e, iv, s + t) == c + CbcEncrypt(e, Feedback(iv, c), t)
    decreases |s|
  {
    hide XorBlock, Feedback, CbcEncrypt;
    if |s| == 0 {
      assert s + t == t;
      CbcEncryptNothing(e, iv);
      assert [] + CbcEncrypt(e, iv, t) == CbcEncrypt(e, iv, t);
      FeedbackNothing(iv);
    } else {
      var b: Block, rest := s[..2], s[2..];
      var c: Block := e(XorBlock(b, iv));
      CbcEncryptSplit(e, c, rest, t);
      FeedbackNext(iv, c, CbcEncrypt(e, c, rest));
      CbcEncryptFirst(e, iv, b, rest);
      CbcEncryptFirst(e, iv, b, rest + t);
      assert b + rest == s && b + (rest + t) == s + t;
    }
  }

  lemma CbcEncryptFirst(e: Cipher, iv: Block, b: Block, rest: Text)
    requires |rest| % 2 == 0
    ensures var c := e(XorBlock(b, iv));
            CbcEncrypt(e, iv, b + rest) == c + CbcEncrypt(e, c, rest)
  {
    hide XorBlock;
    assert (b + rest)[..2] == b && (b + rest)[2..] == rest;
  }

  lemma CbcEncryptNothing(e: Cipher, iv: Block)
    ensures CbcEncrypt(e, iv, []) == []
  {
  }

  lemma CbcDecryptFirst(d: Cipher, iv: Block, b: Block, rest: Text)
    requires |rest| % 2 == 0
    ensures CbcDecrypt(d, iv, b + rest) == XorBlock(d(b), iv) + CbcDecrypt(d, b, rest)
  {
    hide XorBlock;
    assert (b + rest)[..2] == b && (b + rest)[2..] == rest;
  }

  lemma CbcDecryptNothing(e: Cipher, iv: Block)
    ensures CbcDecrypt(e, iv, []) == []
  {
  }

  lemma FeedbackNothing(iv: Block)
    ensures Feedback(iv, []) == iv
  {
  }

  lemma FeedbackNext(iv: Block, b: Block, rest: Text)
    requires |rest| % 2 == 0
    ensures Feedback(iv, b + rest) == Feedback(b, rest)
  {
  }

  lemma {:induction false} CbcDecryptSplit(d: Cipher, iv: Block, s: Text, t: Text)
    requires |s| % 2 == 0 && |t| % 2 == 0
    ensures CbcDecrypt(d, iv, s + t) == CbcDecrypt(d, iv, s) + CbcDecrypt(d, Feedback(iv, s), t)
    decreases |s|
  {
    hide XorBlock, Feedback, CbcDecrypt;
    if |s| == 0 {
      assert s + t == t;
      CbcDecryptNothing(d, iv);
      assert [] + CbcDecrypt(d, iv, t) == CbcDecrypt(d, iv, t);
      FeedbackNothing(iv);
    } else {
      var b: Block, rest := s[..2], s[2..];
      CbcDecryptSplit(d, b, rest, t);
      FeedbackNext(iv, b, rest);
      CbcDecryptFirst(d, iv, b, rest);
      CbcDecryptFirst(d, iv, b, rest + t);
      assert b + rest == s && b + (rest + t) == s + t;
    }
  }

  /** The cipher that the tables give. */
  function Enciphering(p: Text, s: Text): Cipher
    requires |p| == BLOWFISHPSIZE && |s| == 1024
  {
    (b: Block) => EncryptBlock(p, s, b)
  }

  function Deciphering(p: Text, s: Text): Cipher
    requires |p| == BLOWFISHPSIZE && |s| == 1024
  {
    (b: Block) => DecryptBlock(p, s, b)
  }

  lemma BlowfishCiphers(p: Text, s: Text, b: Block)
    requires |p| == BLOWFISHPSIZE && |s| == 1024
    ensures Enciphering(p, s)(b) == EncryptBlock(p, s, b) && Deciphering(p, s)(b) == DecryptBlock(p, s, b)
  {
    hide EncryptBlock, DecryptBlock;
  }

  lemma BlowfishInverts(p: Text, s: Text)
    requires |p| == BLOWFISHPSIZE && |s| == 1024
    ensures Inverts(Deciphering(p, s), Enciphering(p, s))
  {
    hide EncryptBlock, DecryptBlock;
    forall b: Block
      ensures Deciphering(p, s)(Enciphering(p, s)(b)) == b
    {
      DecryptInvertsEncrypt(p, s, b);
    }
  }

  // ----- the modes, over buffers that may be the same

  /** The words from d on are what will be written; src may be read at the same place or elsewhere. */
  predicate SameOrApart(dst: array<bv32>, d: nat, src: array<bv32>, o: nat, n: nat) {
    dst != src || d == o || d + n <= o || o + n <= d
  }

  /** From word i on, the source is still the text S. */
  predicate Unread(src: array<bv32>, o: nat, S: Text, i: nat)
    requires o + |S| <= src.Length
    reads src
  {
    forall j :: i <= j < |S| ==> src[o + j] == S[j]
  }

  method XorInto(dst: array<bv32>, d: nat, a: array<bv32>, i: nat, b: array<bv32>, j: nat)
    requires d + 2 <= dst.Length && i + 2 <= a.Length && j + 2 <= b.Length
    requires SameOrApart(dst, d, a, i, 2) && SameOrApart(dst, d, b, j, 2)
    modifies dst
    ensures dst[d..d + 2] == XorBlock(old(a[i..i + 2]), old(b[j..j + 2]))
    ensures Elsewhere(dst, d, 2)
  {
    hide Xor;
    ghost var x, y := a[i..i + 2], b[j..j + 2];
    dst[d] := Xor(a[i], b[j]);
    dst[d + 1] := Xor(a[i + 1], b[j + 1]);
    assert dst[d..d + 2] == [Xor(x[0], y[0]), Xor(x[1], y[1])];
  }

  /** One more block of a text. */
  lemma CbcEncryptNext(e: Cipher, iv: Block, s: Text, k: nat)
    requires 2 * k + 2 <= |s|
    ensures var c := CbcEncrypt(e, iv, s[..2 * k]);
            CbcEncrypt(e, iv, s[..2 * k + 2]) == c + e(XorBlock(s[2 * k..2 * k + 2], Feedback(iv, c)))
  {
    hide XorBlock;
    var t := s[2 * k..2 * k + 2];
    CbcEncryptSplit(e, iv, s[..2 * k], t);
    assert s[..2 * k + 2] == s[..2 * k] + t;
    assert t[..2] == t;
    CbcEncryptOne(e, Feedback(iv, CbcEncrypt(e, iv, s[..2 * k])), t);
  }

  lemma CbcEncryptOne(e: Cipher, iv: Block, b: Block)
    ensures CbcEncrypt(e, iv, b) == e(XorBlock(b, iv))
  {
    hide Xor;
    assert b[..2] == b && b[2..] == [];
    var c := e(XorBlock(b, iv));
    assert c + [] == c;
  }

  method BlockEncryptCBC(bp: BlowfishParam, dst: array<bv32>, d: nat, src: array<bv32>, o: nat, nblocks: nat)
    requires bp.Tables() && d + 2 * nblocks <= dst.Length && o + 2 * nblocks <= src.Length
    requires SameOrApart(dst, d, src, o, 2 * nblocks)
    requires dst != bp.p && dst != bp.s && dst != bp.fdback && src != bp.p && src != bp.s && src != bp.fdback
    modifies dst, bp.fdback
    ensures var c := CbcEncrypt(Enciphering(bp.p[..], bp.s[..]), old(bp.fdback[..]), old(src[o..o + 2 * nblocks]));
            dst[d..d + 2 * nblocks] == c && bp.fdback[..] == Feedback(old(bp.fdback[..]), c)
    ensures Elsewhere(dst, d, 2 * nblocks)
  {
    hide CbcEncrypt, XorBlock;
    ghost var e, iv, S := Enciphering(bp.p[..], bp.s[..]), bp.fdback[..], src[o..o + 2 * nblocks];
    CbcEncryptNothing(e, iv);
    if nblocks > 0 {
      EncryptFirst(bp, dst, d, src, o, nblocks, e, iv, S);
      var done := 1;
      while done < nblocks
        invariant 1 <= done <= nblocks && bp.fdback[..] == iv
        invariant dst[d..d + 2 * done] == CbcEncrypt(e, iv, S[..2 * done])
        invariant Unread(src, o, S, 2 * done)
        invariant Elsewhere(dst, d, 2 * nblocks)
      {
        EncryptNext(bp, dst, d, src, o, nblocks, done, e, iv, S);
        done := done + 1;
      }
      assert S[..2 * nblocks] == S;
      StoreFeedback(bp.fdback, dst, d, 2 * nblocks);
    }
  }

  /** Keeps the last block of n words. */
  method StoreFeedback(fdback: array<bv32>, dst: array<bv32>, d: nat, n: nat)
    requires fdback.Length == 2 <= n && d + n <= dst.Length && dst != fdback
    modifies fdback
    ensures fdback[..] == dst[d..d + n][n - 2..]
  {
    var last := d + n - 2;
    fdback[0], fdback[1] := dst[last], dst[last + 1];
  }

  /** The first block, which is combined with the feedback. */
  method EncryptFirst(bp: BlowfishParam, dst: array<bv32>, d: nat, src: array<bv32>, o: nat, nblocks: nat,
                      ghost e: Cipher, ghost iv: Block, ghost S: Text)
    requires bp.Tables() && 0 < nblocks && d + 2 * nblocks <= dst.Length && o + 2 * nblocks <= src.Length
    requires SameOrApart(dst, d, src, o, 2 * nblocks)
    requires dst != bp.p && dst != bp.s && dst != bp.fdback && src != bp.fdback
    requires e == Enciphering(bp.p[..], bp.s[..]) && iv == bp.fdback[..] && S == src[o..o + 2 * nblocks]
    modifies dst
    ensures dst[d..d + 2] == CbcEncrypt(e, iv, S[..2])
    ensures Unread(src, o, S, 2)
    ensures Elsewhere(dst, d, 2)
  {
    hide EncryptBlock, Xor;
    XorInto(dst, d, src, o, bp.fdback, 0);
    bp.Encrypt(dst, d, dst, d);
    ghost var b: Block := S[..2];
    assert b == old(src[o..o + 2]);
    CbcEncryptOne(e, iv, b);
  }

  /** A later block, which is combined with the cipher block before it. */
  method EncryptNext(bp: BlowfishParam, dst: array<bv32>, d: nat, src: array<bv32>, o: nat, nblocks: nat, done: nat,
                     ghost e: Cipher, ghost iv: Block, ghost S: Text)
    requires bp.Tables() && 0 < done < nblocks && d + 2 * nblocks <= dst.Length && o + 2 * nblocks <= src.Length
    requires SameOrApart(dst, d, src, o, 2 * nblocks) && |S| == 2 * nblocks
    requires dst != bp.p && dst != bp.s && dst != bp.fdback
    requires e == Enciphering(bp.p[..], bp.s[..])
    requires dst[d..d + 2 * done] == CbcEncrypt(e, iv, S[..2 * done])
    requires Unread(src, o, S, 2 * done)
    modifies dst
    ensures dst[d..d + 2 * done + 2] == CbcEncrypt(e, iv, S[..2 * done + 2])
    ensures Unread(src, o, S, 2 * done + 2)
    ensures Elsewhere(dst, d + 2 * done, 2)
  {
    hide EncryptBlock, XorBlock, CbcEncrypt;
    ghost var c := dst[d..d + 2 * done];
    var at := d + 2 * done;
    ghost var b, before: Block := src[o + 2 * done..o + 2 * done + 2], dst[at - 2..at];
    assert b[0] == S[2 * done] && b[1] == S[2 * done + 1];
    assert b == S[2 * done..2 * done + 2];
    assert before == c[|c| - 2..];
    XorInto(dst, at, src, o + 2 * done, dst, at - 2);
    bp.Encrypt(dst, at, dst, at);
    CbcEncryptNext(e, iv, S, done);
    assert dst[d..at] == c;
    assert dst[d..at + 2] == dst[d..at] + dst[at..at + 2];
  }

  /** One more block of a cipher text. */
  lemma CbcDecryptNext(e: Cipher, iv: Block, c: Text, k: nat)
    requires 2 * k + 2 <= |c|
    ensures CbcDecrypt(e, iv, c[..2 * k + 2]) ==
            CbcDecrypt(e, iv, c[..2 * k]) + XorBlock(e(c[2 * k..2 * k + 2]), Feedback(iv, c[..2 * k]))
    ensures Feedback(iv, c[..2 * k + 2]) == c[2 * k..2 * k + 2]
  {
    hide Xor;
    var t: Block := c[2 * k..2 * k + 2];
    CbcDecryptSplit(e, iv, c[..2 * k], t);
    assert c[..2 * k + 2] == c[..2 * k] + t;
    assert t[..2] == t && t[2..] == [];
    var s := XorBlock(e(t), Feedback(iv, c[..2 * k]));
    assert s + [] == s;
  }

  /** Decrypts whole blocks; each is read before it is overwritten. */
  method BlockDecryptCBC(bp: BlowfishParam, dst: array<bv32>, d: nat, src: array<bv32>, o: nat, nblocks: nat)
    requires bp.Tables() && d + 2 * nblocks <= dst.Length && o + 2 * nblocks <= src.Length
    requires SameOrApart(dst, d, src, o, 2 * nblocks)
    requires dst != bp.p && dst != bp.s && dst != bp.fdback && src != bp.p && src != bp.s && src != bp.fdback
    modifies dst, bp.fdback
    ensures var c := old(src[o..o + 2 * nblocks]);
            && dst[d..d + 2 * nblocks] == CbcDecrypt(Deciphering(bp.p[..], bp.s[..]), old(bp.fdback[..]), c)
            && bp.fdback[..] == Feedback(old(bp.fdback[..]), c)
    ensures Elsewhere(dst, d, 2 * nblocks)
  {
    hide CbcDecrypt, XorBlock, Xor, Feedback;
    ghost var e, iv, S := Deciphering(bp.p[..], bp.s[..]), bp.fdback[..], src[o..o + 2 * nblocks];
    CbcDecryptNothing(e, iv);
    FeedbackNothing(iv);
    var buf := new bv32[2];
    var done := 0;
    assert S[..0] == [] && dst[d..d] == [];
    while done < nblocks
      invariant done <= nblocks
      invariant dst[d..d + 2 * done] == CbcDecrypt(e, iv, S[..2 * done])
      invariant bp.fdback[..] == Feedback(iv, S[..2 * done])
      invariant Unread(src, o, S, 2 * done)
      invariant Elsewhere(dst, d, 2 * nblocks)
    {
      DecryptNext(bp, dst, d, src, o, nblocks, done, buf, e, iv, S);
      done := done + 1;
    }
    assert S[..2 * nblocks] == S;
  }

  method DecryptNext(bp: BlowfishParam, dst: array<bv32>, d: nat, src: array<bv32>, o: nat, nblocks: nat, done: nat,
                     buf: array<bv32>, ghost e: Cipher, ghost iv: Block, ghost S: Text)
    requires bp.Tables() && done < nblocks && d + 2 * nblocks <= dst.Length && o + 2 * nblocks <= src.Length
    requires SameOrApart(dst, d, src, o, 2 * nblocks) && |S| == 2 * nblocks && buf.Length == 2
    requires dst != bp.p && dst != bp.s && dst != bp.fdback && src != bp.fdback
    requires buf != dst && buf != src && buf != bp.p && buf != bp.s && buf != bp.fdback
    requires e == Deciphering(bp.p[..], bp.s[..])
    requires dst[d..d + 2 * done] == CbcDecrypt(e, iv, S[..2 * done])
    requires bp.fdback[..] == Feedback(iv, S[..2 * done]) && Unread(src, o, S, 2 * done)
    modifies dst, bp.fdback, buf
    ensures dst[d..d + 2 * done + 2] == CbcDecrypt(e, iv, S[..2 * done + 2])
    ensures bp.fdback[..] == Feedback(iv, S[..2 * done + 2]) && Unread(src, o, S, 2 * done + 2)
    ensures Elsewhere(dst, d + 2 * done, 2)
  {
    hide DecryptBlock, Xor, CbcDecrypt;
    ghost var s := dst[d..d + 2 * done];
    var at, from := d + 2 * done, o + 2 * done;
    ghost var b, before: Block := src[from..from + 2], bp.fdback[..];
    assert b[0] == S[2 * done] && b[1] == S[2 * done + 1];
    assert b == S[2 * done..2 * done + 2];
    bp.Decrypt(buf, 0, src, from);
    ghost var plain: Block := buf[..];
    assert plain == e(b) by {
      assert buf[0..2] == buf[..];
    }
    ChainBlock(dst, at, src, from, buf, bp.fdback);
    CbcDecryptNext(e, iv, S, done);
    assert dst[d..at] == s;
    assert dst[d..at + 2] == dst[d..at] + dst[at..at + 2];
  }

  /** Combines the deciphered block with the feedback, and makes the cipher block the feedback. */
  method ChainBlock(dst: array<bv32>, d: nat, src: array<bv32>, o: nat, buf: array<bv32>, fdback: array<bv32>)
    requires d + 2 <= dst.Length && o + 2 <= src.Length && buf.Length == 2 == fdback.Length
    requires SameOrApart(dst, d, src, o, 2)
    requires buf != dst && buf != fdback && dst != fdback && src != fdback
    modifies dst, fdback
    ensures dst[d..d + 2] == XorBlock(old(buf[..]), old(fdback[..]))
    ensures fdback[..] == old(src[o..o + 2])
    ensures Elsewhere(dst, d, 2)
  {
    hide Xor;
    ghost var x, y := buf[..], fdback[..];
    var tmp := src[o];
    dst[d] := Xor(buf[0], fdback[0]);
    fdback[0] := tmp;
    tmp := src[o + 1];
    dst[d + 1] := Xor(buf[1], fdback[1]);
    fdback[1] := tmp;
    assert dst[d..d + 2] == [Xor(x[0], y[0]), Xor(x[1], y[1])];
  }
}
