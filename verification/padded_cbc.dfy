/** Padding, chaining and the cipher together: a message of any length there and back. */
module PaddedCbc {
  import opened Words
  import opened Bytes
  import opened Blowfish
  import opened BlockMode
  import opened BlockPad

  const BLOCKBYTES: nat := 8

  // ----- the bytes of a chunk seen as the words that a block mode works on

  /** The k low bits of a number, most significant first. */
  function BitsOf(n: nat, k: nat): (s: seq<bool>)
    ensures |s| == k
  {
    if k == 0 then [] else BitsOf(n / 2, k - 1) + [n % 2 == 1]
  }

  function NumberOf(s: seq<bool>): nat {
    if |s| == 0 then 0 else 2 * NumberOf(s[..|s| - 1]) + if s[|s| - 1] then 1 else 0
  }

  lemma {:induction false} SameNumber(n: nat, k: nat)
    requires n < P2(k)
    ensures NumberOf(BitsOf(n, k)) == n
  {
    if k > 0 {
      SameNumber(n / 2, k - 1);
      assert BitsOf(n, k)[..k - 1] == BitsOf(n / 2, k - 1);
    }
  }

  lemma NumberOfBits(s: seq<bool>)
    requires |s| == 8
    ensures NumberOf(s) < 256
  {
    NumberBelow(s);
    P2Add(4, 4);
  }

  lemma {:induction false} NumberBelow(s: seq<bool>)
    ensures NumberOf(s) < P2(|s|)
  {
    if |s| > 0 {
      NumberBelow(s[..|s| - 1]);
    }
  }

  function FromBits(s: seq<bool>): bv8
    requires |s| == 8
  {
    (if s[0] then 128 else 0) | (if s[1] then 64 else 0) | (if s[2] then 32 else 0) | (if s[3] then 16 else 0)
    | (if s[4] then 8 else 0) | (if s[5] then 4 else 0) | (if s[6] then 2 else 0) | (if s[7] then 1 else 0)
  }

  function ToBits(o: bv8): (s: seq<bool>)
    ensures |s| == 8
  {
    [o & 128 != 0, o & 64 != 0, o & 32 != 0, o & 16 != 0, o & 8 != 0, o & 4 != 0, o & 2 != 0, o & 1 != 0]
  }

  lemma SameBits(s: seq<bool>)
    requires |s| == 8
    ensures ToBits(FromBits(s)) == s
  {
  }

  /** A byte as a bit vector. */
  function OctetOf(b: byte): bv8 {
    FromBits(BitsOf(b, 8))
  }

  function ByteFrom(o: bv8): byte {
    NumberOfBits(ToBits(o));
    NumberOf(ToBits(o))
  }

  lemma SameByte(b: byte)
    ensures ByteFrom(OctetOf(b)) == b
  {
    hide BitsOf, NumberOf, FromBits, ToBits;
    P2Add(4, 4);
    SameNumber(b, 8);
    SameBits(BitsOf(b, 8));
  }

  /** Four bytes of memory, the least significant first. */
  function WordFrom(a: bv8, b: bv8, c: bv8, d: bv8): bv32 {
    ((d as bv32) << 24) | ((c as bv32) << 16) | ((b as bv32) << 8) | (a as bv32)
  }

  function OctetAt(w: bv32, shift: nat): bv8
    requires shift <= 24
  {
    ((w >> shift) & 0xff) as bv8
  }

  lemma OctetsOfWord(a: bv8, b: bv8, c: bv8, d: bv8)
    ensures var w := WordFrom(a, b, c, d);
            && OctetAt(w, 0) == a && OctetAt(w, 8) == b && OctetAt(w, 16) == c && OctetAt(w, 24) == d
            && w & 0xff == a as bv32 && (w >> 8) & 0xff == b as bv32
            && (w >> 16) & 0xff == c as bv32 && (w >> 24) & 0xff == d as bv32
  {
  }

  function WordsOf(s: seq<byte>): (w: Text)
    requires |s| % 4 == 0
    ensures |w| == |s| / 4
  {
    if |s| == 0 then []
    else [WordFrom(OctetOf(s[0]), OctetOf(s[1]), OctetOf(s[2]), OctetOf(s[3]))] + WordsOf(s[4..])
  }

  function BytesOfWord(w: bv32): seq<byte> {
    [ByteFrom(OctetAt(w, 0)), ByteFrom(OctetAt(w, 8)), ByteFrom(OctetAt(w, 16)), ByteFrom(OctetAt(w, 24))]
  }

  function BytesOf(w: Text): seq<byte> {
    if |w| == 0 then [] else BytesOfWord(w[0]) + BytesOf(w[1..])
  }

  /** Word k is made of four bytes, the least significant first. */
  lemma {:induction false} WordAt(s: seq<byte>, k: nat)
    requires |s| % 4 == 0 && 4 * k + 4 <= |s|
    ensures WordsOf(s)[k] ==
            WordFrom(OctetOf(s[4 * k]), OctetOf(s[4 * k + 1]), OctetOf(s[4 * k + 2]), OctetOf(s[4 * k + 3]))
    decreases k
  {
    hide OctetOf, WordFrom;
    if k > 0 {
      WordAt(s[4..], k - 1);
    }
  }

  /** A bit vector of eight bits as the number that it is. */
  lemma OctetIsNumber(o: bv8)
    ensures ByteFrom(o) == o as int
  {
    hide ToBits, NumberOf;
    EightBits(ToBits(o));
    BitsOfOctet(o);
  }

  function Digit(b: bool, v: int): int {
    if b then v else 0
  }

  lemma EightBits(s: seq<bool>)
    requires |s| == 8
    ensures NumberOf(s) ==
            Digit(s[0], 128) + Digit(s[1], 64) + Digit(s[2], 32) + Digit(s[3], 16)
            + Digit(s[4], 8) + Digit(s[5], 4) + Digit(s[6], 2) + Digit(s[7], 1)
  {
    FourBits(s[..4]);
    var five, six, seven := s[..5], s[..6], s[..7];
    assert five[..4] == s[..4] && six[..5] == five && seven[..6] == six && s[..7] == seven;
    assert NumberOf(five) == 2 * NumberOf(s[..4]) + Digit(s[4], 1);
    assert NumberOf(six) == 2 * NumberOf(five) + Digit(s[5], 1);
    assert NumberOf(seven) == 2 * NumberOf(six) + Digit(s[6], 1);
  }

  lemma FourBits(s: seq<bool>)
    requires |s| == 4
    ensures NumberOf(s) == Digit(s[0], 8) + Digit(s[1], 4) + Digit(s[2], 2) + Digit(s[3], 1)
  {
    var one, two, three := s[..1], s[..2], s[..3];
    assert one[..0] == [] && two[..1] == one && three[..2] == two && s[..3] == three;
    assert NumberOf(one) == Digit(s[0], 1);
    assert NumberOf(two) == 2 * NumberOf(one) + Digit(s[1], 1);
    assert NumberOf(three) == 2 * NumberOf(two) + Digit(s[2], 1);
  }

  lemma BitsOfOctet(o: bv8)
    ensures var s := ToBits(o);
            o as int == Digit(s[0], 128) + Digit(s[1], 64) + Digit(s[2], 32) + Digit(s[3], 16)
                        + Digit(s[4], 8) + Digit(s[5], 4) + Digit(s[6], 2) + Digit(s[7], 1)
  {
  }

  lemma {:induction false} SameBytes(s: seq<byte>)
    requires |s| % 4 == 0
    ensures BytesOf(WordsOf(s)) == s
  {
    hide OctetOf, ByteFrom, WordFrom, OctetAt;
    if |s| > 0 {
      OctetsOfWord(OctetOf(s[0]), OctetOf(s[1]), OctetOf(s[2]), OctetOf(s[3]));
      SameByte(s[0]);
      SameByte(s[1]);
      SameByte(s[2]);
      SameByte(s[3]);
      SameBytes(s[4..]);
      assert s == [s[0], s[1], s[2], s[3]] + s[4..];
    }
  }

  // ----- the round trip

  lemma WordsOfBlocks(n: nat)
    requires n % 8 == 0
    ensures n % 4 == 0 && n / 4 % 2 == 0
  {
    var k := n / 8;
    assert n == 4 * (2 * k) && n / 4 == 2 * k;
  }

  /** A message padded to whole blocks, in words. */
  function PaddedText(m: seq<byte>): (t: Text)
    ensures |t| % 2 == 0
  {
    var padded := Padded(BLOCKBYTES, m);
    WordsOfBlocks(|padded|);
    WordsOf(padded)
  }

  /** Every message comes back, for every initial block and all contents of the cipher's tables. */
  lemma RoundTrip(p: Text, s: Text, iv: Block, m: seq<byte>)
    requires |p| == BLOWFISHPSIZE && |s| == 1024
    ensures var c := CbcEncrypt(Enciphering(p, s), iv, PaddedText(m));
            var d := BytesOf(CbcDecrypt(Deciphering(p, s), iv, c));
            d == Padded(BLOCKBYTES, m) && Unpaddable(BLOCKBYTES, d) && Unpadded(d) == m
  {
    hide Padded, CbcEncrypt, CbcDecrypt, WordsOf, BytesOf;
    BlowfishInverts(p, s);
    CbcRoundTrip(Enciphering(p, s), Deciphering(p, s), iv, PaddedText(m));
    SameBytes(Padded(BLOCKBYTES, m));
    UnpadRestores(BLOCKBYTES, m);
  }

  // ----- any number of calls

  /** What was cut into parts. */
  function Joined(parts: seq<Text>): (t: Text) {
    if |parts| == 0 then [] else parts[0] + Joined(parts[1..])
  }

  ghost predicate WholeBlocks(parts: seq<Text>) {
    forall i :: 0 <= i < |parts| ==> |parts[i]| % 2 == 0
  }

  /** One call for each part, chained by the feedback that the call before has stored. */
  ghost function EncryptCalls(e: Cipher, iv: Block, parts: seq<Text>): Text
    requires WholeBlocks(parts)
    decreases |parts|
  {
    if |parts| == 0 then []
    else
      var c := CbcEncrypt(e, iv, parts[0]);
      c + EncryptCalls(e, Feedback(iv, c), parts[1..])
  }

  ghost function DecryptCalls(d: Cipher, iv: Block, parts: seq<Text>): Text
    requires WholeBlocks(parts)
    decreases |parts|
  {
    if |parts| == 0 then []
    else CbcDecrypt(d, iv, parts[0]) + DecryptCalls(d, Feedback(iv, parts[0]), parts[1..])
  }

  lemma {:induction false} JoinedBlocks(parts: seq<Text>)
    requires WholeBlocks(parts)
    ensures |Joined(parts)| % 2 == 0
  {
    if |parts| > 0 {
      JoinedBlocks(parts[1..]);
    }
  }

  lemma {:induction false} EncryptCallsSame(e: Cipher, iv: Block, parts: seq<Text>)
    requires WholeBlocks(parts)
    ensures |Joined(parts)| % 2 == 0 && EncryptCalls(e, iv, parts) == CbcEncrypt(e, iv, Joined(parts))
    decreases |parts|
  {
    hide Feedback;
    JoinedBlocks(parts);
    if |parts| > 0 {
      JoinedBlocks(parts[1..]);
      EncryptCallsSame(e, Feedback(iv, CbcEncrypt(e, iv, parts[0])), parts[1..]);
      CbcEncryptSplit(e, iv, parts[0], Joined(parts[1..]));
    }
  }

  lemma {:induction false} DecryptCallsSame(d: Cipher, iv: Block, parts: seq<Text>)
    requires WholeBlocks(parts)
    ensures |Joined(parts)| % 2 == 0 && DecryptCalls(d, iv, parts) == CbcDecrypt(d, iv, Joined(parts))
    decreases |parts|
  {
    hide Feedback;
    JoinedBlocks(parts);
    if |parts| > 0 {
      JoinedBlocks(parts[1..]);
      DecryptCallsSame(d, Feedback(iv, parts[0]), parts[1..]);
      CbcDecryptSplit(d, iv, parts[0], Joined(parts[1..]));
    }
  }

  /** A padded message that is encrypted in any number of calls and decrypted in any number of others, cut at
      any whole blocks, comes back too. */
  lemma RoundTripInParts(p: Text, s: Text, iv: Block, m: seq<byte>, parts: seq<Text>, pieces: seq<Text>)
    requires |p| == BLOWFISHPSIZE && |s| == 1024 && WholeBlocks(parts) && WholeBlocks(pieces)
    requires Joined(parts) == PaddedText(m)
    requires Joined(pieces) == EncryptCalls(Enciphering(p, s), iv, parts)
    ensures var d := BytesOf(DecryptCalls(Deciphering(p, s), iv, pieces));
            Unpaddable(BLOCKBYTES, d) && Unpadded(d) == m
  {
    hide PaddedText, CbcEncrypt, CbcDecrypt, BytesOf, Joined, EncryptCalls, DecryptCalls, Unpadded;
    EncryptCallsSame(Enciphering(p, s), iv, parts);
    DecryptCallsSame(Deciphering(p, s), iv, pieces);
    RoundTrip(p, s, iv, m);
  }
}
