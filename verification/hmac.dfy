/** Keyed hashing (hmac.c) over the hash of sha256.c. */
module Hmac {
  import opened Bytes
  import opened Sha256

  const HMAC_IPAD: byte := 0x36
  const HMAC_OPAD: byte := 0x5c

  // ----- the code of a message

  /** The key in one block; a longer one is hashed first. */
  function KeyBlock(c: Compression, key: seq<byte>): (s: seq<byte>)
    ensures |s| == BLOCKSIZE
  {
    var k := if |key| > BLOCKSIZE then Hash(c, key) else key;
    k + Repeat(0, BLOCKSIZE - |k|)
  }

  function Xored(s: seq<byte>, b: byte): (t: seq<byte>)
    ensures |t| == |s| && forall i :: 0 <= i < |s| ==> t[i] == Xor(s[i], b)
  {
    seq(|s|, i requires 0 <= i < |s| => Xor(s[i], b))
  }

  function Code(c: Compression, key: seq<byte>, m: seq<byte>): seq<byte> {
    var k := KeyBlock(c, key);
    Hash(c, Xored(k, HMAC_OPAD) + Hash(c, Xored(k, HMAC_IPAD) + m))
  }

  /** The pads are the key, or its hash when it is longer than a block, and zero bytes behind it, with every
      byte combined with 0x36 or 0x5c. */
  lemma Pads(c: Compression, key: seq<byte>)
    ensures var k := if |key| > 64 then Hash(c, key) else key;
            var inner, outer := Xored(KeyBlock(c, key), HMAC_IPAD), Xored(KeyBlock(c, key), HMAC_OPAD);
            && |inner| == |outer| == 64
            && (forall i :: 0 <= i < |k| ==>
                  inner[i] == (k[i] as bv8 ^ 0x36) as int && outer[i] == (k[i] as bv8 ^ 0x5c) as int)
            && (forall i :: |k| <= i < 64 ==> inner[i] == 0x36 && outer[i] == 0x5c)
  {
    hide Hash, Xor;
    PadBytes();
    XorZero(HMAC_IPAD);
    XorZero(HMAC_OPAD);
    forall b: byte
      ensures Xor(b, HMAC_IPAD) == (b as bv8 ^ 0x36) as int
      ensures Xor(b, HMAC_OPAD) == (b as bv8 ^ 0x5c) as int
    {
      XorIs(b, HMAC_IPAD);
      XorIs(b, HMAC_OPAD);
    }
  }

  lemma PadBytes()
    ensures HMAC_IPAD as bv8 == 0x36 && HMAC_OPAD as bv8 == 0x5c
  {
  }

  /** The code is the hash of the outer pad and of the hash of the inner pad and the message. */
  lemma NestedHash(c: Compression, key: seq<byte>, m: seq<byte>, inner: seq<byte>, outer: seq<byte>)
    requires |inner| == |outer| == 64
    requires var k := if |key| > 64 then Hash(c, key) else key;
             && (forall i :: 0 <= i < |k| ==>
                  inner[i] == (k[i] as bv8 ^ 0x36) as int && outer[i] == (k[i] as bv8 ^ 0x5c) as int)
             && (forall i :: |k| <= i < 64 ==> inner[i] == 0x36 && outer[i] == 0x5c)
    ensures Code(c, key, m) == Hash(c, outer + Hash(c, inner + m))
  {
    hide Hash, KeyBlock, Xored;
    Pads(c, key);
    assert inner == Xored(KeyBlock(c, key), HMAC_IPAD);
    assert outer == Xored(KeyBlock(c, key), HMAC_OPAD);
  }

  // ----- operations

  /** The first n bytes combined with b, and b itself behind them. */
  method XorPad(k: array<byte>, n: nat, b: byte)
    requires n <= BLOCKSIZE == k.Length
    modifies k
    ensures k[..] == Xored(old(k[..n]) + Repeat(0, BLOCKSIZE - n), b)
  {
    ghost var padded := k[..n] + Repeat(0, BLOCKSIZE - n);
    XorZero(b);
    var i := 0;
    while i < n
      invariant i <= n
      invariant forall j :: 0 <= j < n ==> k[j] == if j < i then Xor(padded[j], b) else padded[j]
    {
      k[i] := Xor(k[i], b);
      i := i + 1;
    }
    while i < BLOCKSIZE
      invariant n <= i <= BLOCKSIZE
      invariant forall j :: 0 <= j < i ==> k[j] == Xor(padded[j], b)
    {
      k[i] := b;
      i := i + 1;
    }
  }

  method CopyBytes(n: nat, x: array<byte>, y: array<byte>)
    requires n <= x.Length && n <= y.Length && x != y
    modifies x
    ensures x[..n] == y[..n]
  {
    var i := 0;
    while i < n
      invariant i <= n && x[..i] == y[..i]
    {
      x[i] := y[i];
      i := i + 1;
    }
  }

  /** Prepares the two pads and starts the inner hash; refuses an empty key. */
  method HmacSetup(kxi: array<byte>, kxo: array<byte>, sp: Sha256Param, key: array<byte>, keybits: nat)
      returns (ok: bool)
    requires sp.Allocated() && kxi.Length == kxo.Length == BLOCKSIZE && keybits / 8 <= key.Length
    requires kxi != kxo && kxi != key && kxo != key && kxi != sp.data && kxo != sp.data && key != sp.data
    modifies kxi, kxo, sp, sp.h, sp.data
    ensures ok <==> keybits / 8 > 0
    ensures ok ==> kxi[..] == Xored(KeyBlock(sp.compress, key[..keybits / 8]), HMAC_IPAD)
    ensures ok ==> kxo[..] == Xored(KeyBlock(sp.compress, key[..keybits / 8]), HMAC_OPAD)
    ensures ok ==> sp.Valid() && sp.message == kxi[..]
  {
    hide Hash;
    var keybytes := keybits / 8;
    ghost var K := key[..keybytes];
    if keybytes > BLOCKSIZE {
      sp.Reset();
      sp.Update(key, 0, keybytes);
      assert sp.message == K;
      sp.Digest(kxi);
      keybytes := DIGESTSIZE;
      CopyBytes(keybytes, kxo, kxi);
    } else if keybytes > 0 {
      CopyBytes(keybytes, kxi, key);
      CopyBytes(keybytes, kxo, key);
    } else {
      return false;
    }
    ghost var k := kxi[..keybytes];
    assert k + Repeat(0, BLOCKSIZE - keybytes) == KeyBlock(sp.compress, K);
    XorPad(kxi, keybytes, HMAC_IPAD);
    XorPad(kxo, keybytes, HMAC_OPAD);
    HmacReset(kxi, sp);
    ok := true;
  }

  method HmacReset(kxi: array<byte>, sp: Sha256Param)
    requires sp.Allocated() && kxi.Length == BLOCKSIZE && kxi != sp.data
    modifies sp, sp.h, sp.data
    ensures sp.Valid() && sp.message == kxi[..]
  {
    sp.Reset();
    sp.Update(kxi, 0, BLOCKSIZE);
    assert kxi[0..BLOCKSIZE] == kxi[..];
  }

  method HmacUpdate(sp: Sha256Param, data: array<byte>, o: nat, size: nat)
    requires sp.Valid() && o + size <= data.Length && data != sp.data
    modifies sp, sp.h, sp.data
    ensures sp.Valid() && sp.message == old(sp.message) + data[o..o + size]
  {
    sp.Update(data, o, size);
  }

  /** The outer hash. It starts from an empty message because the first digest has reset the state. */
  method HmacDigest(kxo: array<byte>, sp: Sha256Param, data: array<byte>, ghost key: seq<byte>, ghost m: seq<byte>)
    requires sp.Valid() && kxo.Length == BLOCKSIZE && data.Length >= DIGESTSIZE
    requires kxo != data && kxo != sp.data && data != sp.data
    requires sp.message == Xored(KeyBlock(sp.compress, key), HMAC_IPAD) + m
    requires kxo[..] == Xored(KeyBlock(sp.compress, key), HMAC_OPAD)
    modifies sp, sp.h, sp.data, data
    ensures data[..DIGESTSIZE] == Code(sp.compress, key, m)
    ensures sp.Valid() && sp.message == [] && kxo[..] == old(kxo[..])
  {
    hide Hash, KeyBlock, Xored;
    ghost var outer := kxo[..];
    sp.Digest(data);
    ghost var inner := data[..DIGESTSIZE];
    sp.Update(kxo, 0, BLOCKSIZE);
    assert kxo[0..BLOCKSIZE] == outer;
    sp.Update(data, 0, DIGESTSIZE);
    assert data[0..DIGESTSIZE] == inner;
    assert sp.message == outer + inner;
    sp.Digest(data);
  }
}
