/**
  The Blowfish block cipher (blowfish.c), over any contents of its tables, on a machine that
  keeps the least significant byte of a word first.
 */
module Blowfish {
  const BLOWFISHPSIZE: nat := 18

  // ----- words

  /** One byte of a word, as an index. */
  function ByteOf(w: bv32, shift: nat): (r: int)
    requires shift <= 24
    ensures 0 <= r < 256
  {
    ((w >> shift) & 0xff) as int
  }

  /** The word with its bytes in the opposite order. */
  function Swap(w: bv32): bv32 {
    (w << 24) | ((w & 0xff00) << 8) | ((w >> 8) & 0xff00) | (w >> 24)
  }

  lemma SwapTwice(w: bv32)
    ensures Swap(Swap(w)) == w
  {
  }

  function Xor(a: bv32, b: bv32): bv32 {
    a ^ b
  }

  lemma XorIs(a: bv32, b: bv32)
    ensures Xor(a, b) == a ^ b
  {
  }

  lemma XorTwice(a: bv32, k: bv32)
    ensures Xor(Xor(a, k), k) == a
  {
  }

  lemma XorAcross(a: bv32, b: bv32, c: bv32)
    ensures Xor(Xor(Xor(a, b), c), b) == Xor(a, c)
  {
    assert (a ^ b) ^ c == (a ^ c) ^ b;
    XorTwice(Xor(a, c), b);
  }

  /** The four bytes of a word, most significant first, come out in the opposite order. */
  lemma SwappedBytes(w: bv32, a: bv32, b: bv32, c: bv32, d: bv32)
    requires a < 256 && b < 256 && c < 256 && d < 256
    requires w == (a << 24) | (b << 16) | (c << 8) | d
    ensures Swap(w) == (d << 24) | (c << 16) | (b << 8) | a
  {
  }

  // ----- the cipher

  /** The function of a round, from the four tables in s. */
  function F(s: seq<bv32>, l: bv32): bv32
    requires |s| == 1024
  {
    ((s[ByteOf(l, 24)] + s[ByteOf(l, 16) + 0x100]) ^ s[ByteOf(l, 8) + 0x200]) + s[ByteOf(l, 0) + 0x300]
  }

  /** The four tables are indexed by the bytes of the half, the first one by the most significant. */
  lemma RoundFunction(s: seq<bv32>, l: bv32)
    requires |s| == 1024
    ensures F(s, l) ==
            ((s[ByteOf(l, 24)] + s[256 + ByteOf(l, 16)]) ^ s[512 + ByteOf(l, 8)]) + s[768 + ByteOf(l, 0)]
  {
    hide ByteOf;
  }

  lemma BytesOfHalf(l: bv32, a: bv32, b: bv32, c: bv32, d: bv32)
    requires a < 256 && b < 256 && c < 256 && d < 256
    requires l == (a << 24) | (b << 16) | (c << 8) | d
    ensures ByteOf(l, 24) == a as int && ByteOf(l, 16) == b as int
    ensures ByteOf(l, 8) == c as int && ByteOf(l, 0) == d as int
  {
    assert (l >> 24) & 0xff == a && (l >> 16) & 0xff == b && (l >> 8) & 0xff == c && (l >> 0) & 0xff == d;
  }

  /** Two rounds, after which the halves are where they were. */
  function TwoRounds(s: seq<bv32>, a: bv32, b: bv32, x: (bv32, bv32)): (bv32, bv32)
    requires |s| == 1024
  {
    var l := Xor(x.0, a);
    var r := Xor(Xor(x.1, F(s, l)), b);
    (Xor(l, F(s, r)), r)
  }

  /** In each round a half takes a key, and the other half takes the function of it. */
  lemma RoundPair(s: seq<bv32>, a: bv32, b: bv32, l: bv32, r: bv32)
    requires |s| == 1024
    ensures var l' := Xor(l, a);
            var r' := Xor(Xor(r, F(s, l')), b);
            TwoRounds(s, a, b, (l, r)) == (Xor(l', F(s, r')), r')
  {
    hide F, Xor;
  }

  /** The halves after 2k rounds of encryption. */
  function Encrypting(p: seq<bv32>, s: seq<bv32>, x: (bv32, bv32), k: nat): (bv32, bv32)
    requires |p| == BLOWFISHPSIZE && |s| == 1024 && k <= 8
  {
    if k == 0 then x else TwoRounds(s, p[2 * k - 2], p[2 * k - 1], Encrypting(p, s, x, k - 1))
  }

  /** The halves after 2k rounds of decryption. */
  function Decrypting(p: seq<bv32>, s: seq<bv32>, x: (bv32, bv32), k: nat): (bv32, bv32)
    requires |p| == BLOWFISHPSIZE && |s| == 1024 && k <= 8
  {
    if k == 0 then x else TwoRounds(s, p[19 - 2 * k], p[18 - 2 * k], Decrypting(p, s, x, k - 1))
  }

  type Block = b: seq<bv32> | |b| == 2 witness [0, 0]

  function EncryptBlock(p: seq<bv32>, s: seq<bv32>, b: Block): Block
    requires |p| == BLOWFISHPSIZE && |s| == 1024
  {
    var x := Encrypting(p, s, (Swap(b[0]), Swap(b[1])), 8);
    [Swap(Xor(x.1, p[17])), Swap(Xor(x.0, p[16]))]
  }

  function DecryptBlock(p: seq<bv32>, s: seq<bv32>, b: Block): Block
    requires |p| == BLOWFISHPSIZE && |s| == 1024
  {
    var x := Decrypting(p, s, (Swap(b[0]), Swap(b[1])), 8);
    [Swap(Xor(x.1, p[0])), Swap(Xor(x.0, p[1]))]
  }

  /** A block is two big-endian words; eight pairs of rounds take the keys in order, and the last two keys mask the
      halves, which are crossed. */
  lemma EncryptedBlock(p: seq<bv32>, s: seq<bv32>, b: Block, x: seq<(bv32, bv32)>)
    requires |p| == BLOWFISHPSIZE && |s| == 1024 && |x| == 9 && x[0] == (Swap(b[0]), Swap(b[1]))
    requires forall k :: 0 <= k < 8 ==> x[k + 1] == TwoRounds(s, p[2 * k], p[2 * k + 1], x[k])
    ensures EncryptBlock(p, s, b) == [Swap(Xor(x[8].1, p[17])), Swap(Xor(x[8].0, p[16]))]
  {
    hide TwoRounds, Swap, Xor;
    EncryptedPairs(p, s, x, 8);
  }

  lemma {:induction false} EncryptedPairs(p: seq<bv32>, s: seq<bv32>, x: seq<(bv32, bv32)>, k: nat)
    requires |p| == BLOWFISHPSIZE && |s| == 1024 && |x| == 9 && k <= 8
    requires forall i :: 0 <= i < 8 ==> x[i + 1] == TwoRounds(s, p[2 * i], p[2 * i + 1], x[i])
    ensures Encrypting(p, s, x[0], k) == x[k]
  {
    hide TwoRounds;
    if k > 0 {
      EncryptedPairs(p, s, x, k - 1);
      assert x[(k - 1) + 1] == TwoRounds(s, p[2 * (k - 1)], p[2 * (k - 1) + 1], x[k - 1]);
    }
  }

  /** Decryption is the same with the keys in the opposite order. */
  lemma DecryptedBlock(p: seq<bv32>, s: seq<bv32>, b: Block)
    requires |p| == BLOWFISHPSIZE && |s| == 1024
    ensures DecryptBlock(p, s, b) == EncryptBlock(seq(18, i requires 0 <= i < 18 => p[17 - i]), s, b)
  {
    hide TwoRounds, Swap, Xor;
    var q := seq(18, i requires 0 <= i < 18 => p[17 - i]);
    OppositeKeys(p, q, s, (Swap(b[0]), Swap(b[1])), 8);
  }

  lemma {:induction false} OppositeKeys(p: seq<bv32>, q: seq<bv32>, s: seq<bv32>, x: (bv32, bv32), k: nat)
    requires |p| == |q| == BLOWFISHPSIZE && |s| == 1024 && k <= 8
    requires forall i :: 0 <= i < 18 ==> q[i] == p[17 - i]
    ensures Decrypting(p, s, x, k) == Encrypting(q, s, x, k)
  {
    hide TwoRounds;
    if k > 0 {
      OppositeKeys(p, q, s, x, k - 1);
      assert q[2 * k - 2] == p[19 - 2 * k] && q[2 * k - 1] == p[18 - 2 * k];
    }
  }

  /** Two rounds with the keys of the following two, in the opposite order, undo two rounds. */
  lemma UndoTwoRounds(s: seq<bv32>, a: bv32, b: bv32, c: bv32, d: bv32, x: (bv32, bv32))
    requires |s| == 1024
    ensures var y := TwoRounds(s, a, b, x);
            TwoRounds(s, d, c, (Xor(y.1, d), Xor(y.0, c))) == (Xor(x.1, b), Xor(x.0, a))
  {
    hide F, Xor;
    var l := Xor(x.0, a);
    var f := F(s, l);
    var r := Xor(Xor(x.1, f), b);
    var g := F(s, r);
    XorTwice(r, d);
    XorAcross(l, g, c);
    XorTwice(l, c);
    XorAcross(x.1, f, b);
  }

  /** Decryption passes through the states of encryption, crossed over and masked by the keys. */
  lemma {:induction false} Backwards(p: seq<bv32>, s: seq<bv32>, x: (bv32, bv32), y: (bv32, bv32), k: nat)
    requires |p| == BLOWFISHPSIZE && |s| == 1024 && k <= 8
    requires var z := Encrypting(p, s, x, 8); y == (Xor(z.1, p[17]), Xor(z.0, p[16]))
    ensures var z := Encrypting(p, s, x, 8 - k);
            Decrypting(p, s, y, k) == (Xor(z.1, p[17 - 2 * k]), Xor(z.0, p[16 - 2 * k]))
  {
    hide TwoRounds, Xor, Encrypting, Decrypting;
    DecryptingNext(p, s, y, if k > 0 then k - 1 else 0);
    if k > 0 {
      Backwards(p, s, x, y, k - 1);
      EncryptingNext(p, s, x, 8 - k);
      UndoTwoRounds(s, p[16 - 2 * k], p[17 - 2 * k], p[18 - 2 * k], p[19 - 2 * k], Encrypting(p, s, x, 8 - k));
    }
  }

  /** Decryption inverts encryption, whatever the tables hold. */
  lemma DecryptInvertsEncrypt(p: seq<bv32>, s: seq<bv32>, b: Block)
    requires |p| == BLOWFISHPSIZE && |s| == 1024
    ensures DecryptBlock(p, s, EncryptBlock(p, s, b)) == b
  {
    hide Encrypting, Decrypting, Swap, Xor;
    var x := (Swap(b[0]), Swap(b[1]));
    var z := Encrypting(p, s, x, 8);
    var c := EncryptBlock(p, s, b);
    SwapTwice(Xor(z.1, p[17]));
    SwapTwice(Xor(z.0, p[16]));
    var y := (Xor(z.1, p[17]), Xor(z.0, p[16]));
    assert (Swap(c[0]), Swap(c[1])) == y;
    Backwards(p, s, x, y, 8);
    EncryptingNext(p, s, x, 0);
    XorTwice(x.0, p[0]);
    XorTwice(x.1, p[1]);
    SwapTwice(b[0]);
    SwapTwice(b[1]);
  }

  lemma EncryptingNext(p: seq<bv32>, s: seq<bv32>, x: (bv32, bv32), k: nat)
    requires |p| == BLOWFISHPSIZE && |s| == 1024 && k < 8
    ensures Encrypting(p, s, x, k + 1) == TwoRounds(s, p[2 * k], p[2 * k + 1], Encrypting(p, s, x, k))
    ensures Encrypting(p, s, x, 0) == x
  {
    hide TwoRounds;
  }

  lemma DecryptingNext(p: seq<bv32>, s: seq<bv32>, x: (bv32, bv32), k: nat)
    requires |p| == BLOWFISHPSIZE && |s| == 1024 && k < 8
    ensures Decrypting(p, s, x, k + 1) == TwoRounds(s, p[17 - 2 * k], p[16 - 2 * k], Decrypting(p, s, x, k))
    ensures Decrypting(p, s, x, 0) == x
  {
    hide TwoRounds;
  }

  /** Every word but the n words from d on is as it was. */
  twostate predicate Elsewhere(dst: array<bv32>, d: nat, n: nat)
    reads dst
  {
    forall i :: 0 <= i < dst.Length && !(d <= i < d + n) ==> dst[i] == old(dst[i])
  }

  // ----- the parameter block

  class BlowfishParam {
    const p: array<bv32>
    const s: array<bv32>
    const fdback: array<bv32>

    constructor ()
      ensures Tables() && fresh(p) && fresh(s) && fresh(fdback)
    {
      p := new bv32[BLOWFISHPSIZE];
      s := new bv32[1024];
      fdback := new bv32[2];
    }

    predicate Tables() {
      p.Length == BLOWFISHPSIZE && s.Length == 1024 && fdback.Length == 2 && p != s && p != fdback && s != fdback
    }

    method Encrypt(dst: array<bv32>, d: nat, src: array<bv32>, o: nat)
      requires Tables() && d + 2 <= dst.Length && o + 2 <= src.Length && dst != p && dst != s
      modifies dst
      ensures dst[d..d + 2] == EncryptBlock(p[..], s[..], old(src[o..o + 2]))
      ensures Elsewhere(dst, d, 2)
    {
      hide TwoRounds, Swap, Xor, Encrypting, Decrypting;
      ghost var P, S := p[..], s[..];
      ghost var x := (Swap(src[o]), Swap(src[o + 1]));
      var y := (Swap(src[o]), Swap(src[o + 1]));
      EncryptingNext(P, S, x, 0);
      y := TwoRounds(s[..], p[0], p[1], y);
      EncryptingNext(P, S, x, 1);
      y := TwoRounds(s[..], p[2], p[3], y);
      EncryptingNext(P, S, x, 2);
      y := TwoRounds(s[..], p[4], p[5], y);
      EncryptingNext(P, S, x, 3);
      y := TwoRounds(s[..], p[6], p[7], y);
      EncryptingNext(P, S, x, 4);
      y := TwoRounds(s[..], p[8], p[9], y);
      EncryptingNext(P, S, x, 5);
      y := TwoRounds(s[..], p[10], p[11], y);
      EncryptingNext(P, S, x, 6);
      y := TwoRounds(s[..], p[12], p[13], y);
      EncryptingNext(P, S, x, 7);
      y := TwoRounds(s[..], p[14], p[15], y);
      dst[d + 1] := Swap(Xor(y.0, p[16]));
      dst[d] := Swap(Xor(y.1, p[17]));
    }

    method Decrypt(dst: array<bv32>, d: nat, src: array<bv32>, o: nat)
      requires Tables() && d + 2 <= dst.Length && o + 2 <= src.Length && dst != p && dst != s
      modifies dst
      ensures dst[d..d + 2] == DecryptBlock(p[..], s[..], old(src[o..o + 2]))
      ensures Elsewhere(dst, d, 2)
    {
      hide TwoRounds, Swap, Xor, Encrypting, Decrypting;
      ghost var P, S := p[..], s[..];
      ghost var x := (Swap(src[o]), Swap(src[o + 1]));
      var y := (Swap(src[o]), Swap(src[o + 1]));
      DecryptingNext(P, S, x, 0);
      y := TwoRounds(s[..], p[17], p[16], y);
      DecryptingNext(P, S, x, 1);
      y := TwoRounds(s[..], p[15], p[14], y);
      DecryptingNext(P, S, x, 2);
      y := TwoRounds(s[..], p[13], p[12], y);
      DecryptingNext(P, S, x, 3);
      y := TwoRounds(s[..], p[11], p[10], y);
      DecryptingNext(P, S, x, 4);
      y := TwoRounds(s[..], p[9], p[8], y);
      DecryptingNext(P, S, x, 5);
      y := TwoRounds(s[..], p[7], p[6], y);
      DecryptingNext(P, S, x, 6);
      y := TwoRounds(s[..], p[5], p[4], y);
      DecryptingNext(P, S, x, 7);
      y := TwoRounds(s[..], p[3], p[2], y);
      dst[d + 1] := Swap(Xor(y.0, p[1]));
      dst[d] := Swap(Xor(y.1, p[0]));
    }
  }
}
