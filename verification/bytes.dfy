/** Bytes and the bit operations on them. */
module Bytes {
  import opened Arith

  type byte = b: int | 0 <= b < 256
  type uint32 = w: int | 0 <= w < 0x1_0000_0000

  function Xor(a: byte, b: byte): byte {
    ((a as bv8) ^ (b as bv8)) as int
  }

  /** Byte number i of w, counted from the least significant one. */
  function ByteAt(w: nat, i: nat): byte {
    if i == 0 then w % 256 else ByteAt(w / 256, i - 1)
  }

  /** The n low bytes of w, most significant first. */
  function BigEndian(w: nat, n: nat): (s: seq<byte>)
    ensures |s| == n
  {
    seq(n, i requires 0 <= i < n => ByteAt(w, n - 1 - i))
  }

  function Repeat(b: byte, n: nat): (s: seq<byte>)
    ensures |s| == n && forall i :: 0 <= i < n ==> s[i] == b
  {
    seq(n, _ => b)
  }

  /** 256 to the power n. */
  function B(n: nat): (r: int)
    ensures r >= 1
  {
    if n == 0 then 1 else 256 * B(n - 1)
  }

  /** The number that a string of octets denotes, most significant first. */
  function OctetVal(s: seq<byte>): (v: nat) {
    if |s| == 0 then 0 else OctetVal(s[..|s| - 1]) * 256 + s[|s| - 1]
  }

  /** The bytes written denote the number, as far as they can hold it. */
  lemma {:induction false} BigEndianValue(w: nat, n: nat)
    ensures OctetVal(BigEndian(w, n)) == w % B(n)
    decreases n
  {
    hide B;
    if n == 0 {
      assert B(0) == 1 by { BytesSucc(0); }
    } else {
      var s, t := BigEndian(w, n), BigEndian(w / 256, n - 1);
      BigEndianNext(w, n - 1);
      BigEndianValue(w / 256, n - 1);
      BytesSucc(n - 1);
      NextRemainder(w, B(n - 1));
    }
  }

  lemma BytesSucc(n: nat)
    ensures B(n + 1) == 256 * B(n) && B(0) == 1
  {
  }

  lemma BigEndianNext(w: nat, n: nat)
    ensures var s := BigEndian(w, n + 1); s[..n] == BigEndian(w / 256, n) && s[n] as int == w % 256
  {
    var s := BigEndian(w, n + 1);
    assert s[n] == ByteAt(w, 0);
    forall i | 0 <= i < n
      ensures s[i] == BigEndian(w / 256, n)[i]
    {
      assert s[i] == ByteAt(w, n - i) == ByteAt(w / 256, n - 1 - i);
    }
  }

  lemma NextRemainder(w: nat, b: nat)
    requires b > 0
    ensures w % (256 * b) == w / 256 % b * 256 + w % 256
  {
    var v := w / 256;
    DivMod(v, b);
    var q, r := v / b, v % b;
    assert q * (256 * b) == 256 * (q * b);
    DivModUnique(w, 256 * b, q, r * 256 + w % 256);
  }

  /** Numbers of n bytes are the same when all their bytes are. */
  lemma {:induction false} BytesDetermine(v: nat, w: nat, n: nat)
    requires v < B(n) && w < B(n)
    requires forall i: nat :: i < n ==> ByteAt(v, i) == ByteAt(w, i)
    ensures v == w
  {
    if n > 0 {
      assert ByteAt(v, 0) == ByteAt(w, 0);
      forall i: nat | i < n - 1
        ensures ByteAt(v / 256, i) == ByteAt(w / 256, i)
      {
        assert ByteAt(v, i + 1) == ByteAt(w, i + 1);
      }
      BytesDetermine(v / 256, w / 256, n - 1);
    }
  }

  lemma XorIs(a: byte, b: byte)
    ensures Xor(a, b) == ((a as bv8) ^ (b as bv8)) as int
  {
  }

  lemma XorZero(b: byte)
    ensures Xor(0, b) == b
  {
    assert 0 as bv8 ^ b as bv8 == b as bv8;
  }
}
