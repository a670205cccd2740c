/** Numbers as octet strings (mp.c): i2osp and os2ip, on a machine that is not big-endian. */
module Octets {
  import opened Arith
  import opened Words
  import opened Bytes
  import opened MpAddSub
  import opened MpShift

  // ----- the value of an octet string

  lemma {:induction false} BAdd(m: nat, n: nat)
    ensures B(m + n) == B(m) * B(n)
  {
    if m > 0 {
      BAdd(m - 1, n);
      assert B(m + n) == 256 * B(m - 1 + n);
      MulAssoc(256, B(m - 1), B(n));
    }
  }

  lemma BSucc(n: nat)
    ensures B(n + 1) == 256 * B(n)
    ensures B(0) == 1 && B(1) == 256
  {
  }

  lemma {:induction false} BMono(m: nat, n: nat)
    requires m <= n
    ensures B(m) <= B(n)
    decreases n
  {
    if m < n {
      BMono(m, n - 1);
    }
  }

  lemma BIsP2(n: nat)
    ensures B(n) == P2(8 * n)
    decreases n
  {
    if n > 0 {
      BIsP2(n - 1);
      P2Add(8, 8 * (n - 1));
      P2Eight();
    }
  }

  lemma P2Eight()
    ensures P2(8) == 256
  {
    P2Add(4, 4);
  }

  /** Eight octets make a word. */
  lemma BWords(n: nat)
    ensures B(8 * n) == P(n)
  {
    hide B, P2, P;
    BIsP2(8 * n);
    PIsP2(n);
  }

  lemma OctetScaled(v: int, e: int, w: int)
    ensures (v * e + w) * 256 == v * (256 * e) + w * 256
  {
    MulAssoc(v, e, 256);
  }

  lemma {:induction false} OctetConcat(s: seq<byte>, t: seq<byte>)
    ensures OctetVal(s + t) == OctetVal(s) * B(|t|) + OctetVal(t)
  {
    if |t| == 0 {
      assert s + t == s;
    } else {
      var t' := t[..|t| - 1];
      assert (s + t)[..|s + t| - 1] == s + t';
      OctetConcat(s, t');
      BSucc(|t'|);
      OctetScaled(OctetVal(s), B(|t'|), OctetVal(t'));
    }
  }

  lemma {:induction false} OctetBound(s: seq<byte>)
    ensures OctetVal(s) < B(|s|)
  {
    if |s| > 0 {
      OctetBound(s[..|s| - 1]);
    }
  }

  lemma OctetOne(b: byte)
    ensures OctetVal([b]) == b
  {
    assert [b][..0] == [];
  }

  lemma OctetCons(s: seq<byte>)
    requires |s| > 0
    ensures OctetVal(s) == s[0] * B(|s| - 1) + OctetVal(s[1..])
  {
    hide OctetVal, B;
    assert s == [s[0]] + s[1..];
    OctetConcat([s[0]], s[1..]);
    OctetOne(s[0]);
  }

  lemma {:induction false} OctetZeros(s: seq<byte>)
    requires forall i :: 0 <= i < |s| ==> s[i] == 0
    ensures OctetVal(s) == 0
  {
    if |s| > 0 {
      OctetZeros(s[..|s| - 1]);
    }
  }

  // ----- integer to octet string

  /** A number has as many significant octets as are needed to hold it. */
  lemma SignificantOctets(v: nat, bits: nat, n: nat)
    requires v < P2(bits) && (bits == 0 <==> v == 0) && (bits > 0 ==> P2(bits - 1) <= v)
    ensures (bits + 7) / 8 <= n <==> v < B(n)
  {
    hide P2, B;
    BIsP2(n);
    if bits <= 8 * n {
      P2Mono(bits, 8 * n);
    } else {
      P2Mono(8 * n, bits - 1);
    }
  }

  /** What is left to write: the words not yet read, above what remains of the current word. */
  ghost predicate LeftToWrite(left: nat, words: nat, shift: nat, rem: nat) {
    shift <= MP_WBITS && rem < P2(MP_WBITS - shift) && left == words * P2(MP_WBITS - shift) + rem
  }

  /** Taking an octet off what is left. */
  lemma TakeOctet(left: nat, words: nat, shift: nat, rem: nat)
    requires LeftToWrite(left, words, shift, rem) && shift + 8 <= MP_WBITS
    ensures left % 256 == rem % 256 && LeftToWrite(left / 256, words, shift + 8, rem / 256)
  {
    hide P2;
    var f := P2(MP_WBITS - shift - 8);
    P2Add(8, MP_WBITS - shift - 8);
    P2Eight();
    assert words * (256 * f) == 256 * (words * f);
    DivMod(rem, 256);
    DivModUnique(left, 256, words * f + rem / 256, rem % 256);
    MulMono(0, words, f);
  }

  lemma ShiftedOn(w: mpw, shift: nat)
    requires shift + 8 <= MP_WBITS
    ensures Shr(w, shift + 8) as int == Shr(w, shift) as int / 256
    ensures Shr(w, 0) == w
  {
    hide P2;
    var e := P2(shift);
    P2Add(8, shift);
    P2Eight();
    ShrIs(w, shift);
    P2Succ(0);
    var q: int, r: int := Shr(w, shift), w as int % e;
    DivMod(q, 256);
    assert w as int == (q / 256) * (256 * e) + (q % 256 * e + r) by {
      MulSum(q / 256 * 256, q % 256, e);
      MulAssoc(q / 256, 256, e);
    }
    MulStep(q % 256, 256, e);
    MulMono(0, q % 256, e);
    DivModUnique(w, 256 * e, q / 256, q % 256 * e + r);
  }

  lemma NextWordLeft(left: nat, words: seq<mpw>, rem: nat)
    requires |words| > 0 && LeftToWrite(left, Val(words), MP_WBITS, rem)
    ensures LeftToWrite(left, Val(words[..|words| - 1]), 0, words[|words| - 1])
  {
    hide Val, P2;
    P2Succ(0);
    P2Word();
    ValSnoc(words);
  }

  /** Writes one more octet in front. */
  lemma OctetInFront(s: seq<byte>, b: byte, left: nat, v: nat)
    requires OctetVal(s) + left * B(|s|) == v && b == left % 256
    ensures OctetVal([b] + s) + (left / 256) * B(|s| + 1) == v
  {
    hide OctetVal, B;
    OctetConcat([b], s);
    OctetOne(b);
    BSucc(|s|);
    DivMod(left, 256);
    var e := B(|s|);
    MulSum(left / 256 * 256, b, e);
    MulAssoc(left / 256, 256, e);
  }

  /** The big-endian octets of a number. */
  function ToOctets(v: nat, n: nat): (s: seq<byte>)
    requires v < B(n)
    ensures |s| == n && OctetVal(s) == v
  {
    if n == 0 then [] else
      BSucc(n - 1);
      var front := ToOctets(v / 256, n - 1);
      OctetAppend(front, v % 256);
      front + [v % 256]
  }

  lemma OctetAppend(s: seq<byte>, b: byte)
    ensures OctetVal(s + [b]) == OctetVal(s) * 256 + b
  {
    assert (s + [b])[..|s|] == s;
  }

  /** Octet strings of one length that denote the same number are equal. */
  lemma {:induction false} OctetInjective(s: seq<byte>, t: seq<byte>)
    requires |s| == |t| && OctetVal(s) == OctetVal(t)
    ensures s == t
  {
    if |s| > 0 {
      var n := |s| - 1;
      OctetInjective(s[..n], t[..n]);
      assert s == s[..n] + [s[n]] && t == t[..n] + [t[n]];
    }
  }

  /** Writes the number in ossize octets, if it fits. */
  method I2osp(osdata: array<byte>, ossize: nat, idata: array<mpw>, isize: nat) returns (ok: bool)
    requires ossize <= osdata.Length && isize <= idata.Length
    modifies osdata
    ensures ok <==> Val(idata[0..isize]) < B(ossize)
    ensures ok ==> osdata[..ossize] == ToOctets(Val(idata[0..isize]), ossize)
    ensures !ok ==> osdata[..] == old(osdata[..])
    ensures osdata[ossize..] == old(osdata[ossize..])
  {
    hide Val, P, P2, B, OctetVal, ToOctets;
    ghost var v := Val(idata[0..isize]);
    var bits := MpBits(isize, idata, 0);
    var significant := (bits + 7) / 8;
    SignificantOctets(v, bits, ossize);
    SignificantOctets(v, bits, significant);
    ok := ossize >= significant;
    if ok {
      var front := ossize - significant;
      var i := 0;
      while i < front
        invariant i <= front && forall j :: 0 <= j < i ==> osdata[j] == 0
        invariant osdata[ossize..] == old(osdata[ossize..])
      {
        osdata[i] := 0;
        i := i + 1;
      }
      if significant > 0 {
        SignificantOctets(v, bits, significant - 1);
        WriteOctets(osdata, front, significant, idata, isize, v);
      } else {
        BSucc(0);
        OctetZeros([]);
        assert osdata[front..front + significant] == [];
      }
      OctetZeros(osdata[..front]);
      OctetConcat(osdata[..front], osdata[front..ossize]);
      assert osdata[..ossize] == osdata[..front] + osdata[front..ossize];
      OctetInjective(osdata[..ossize], ToOctets(v, ossize));
    }
  }

  /** A number of just n octets. */
  ghost predicate NeedsOctets(v: nat, n: nat) {
    v < B(n) && (n > 0 ==> B(n - 1) <= v)
  }

  lemma FewerOctets(v: nat, n: nat)
    requires n > 0 && NeedsOctets(v, n)
    ensures v > 0 && NeedsOctets(v / 256, n - 1)
  {
    hide B;
    BSucc(n - 1);
    BMono(0, n - 1);
    BSucc(0);
    if n > 1 {
      BSucc(n - 2);
    }
  }

  lemma NothingLeft(left: nat, shift: nat, rem: nat)
    requires LeftToWrite(left, 0, shift, rem) && shift == MP_WBITS
    ensures left == 0
  {
    P2Succ(0);
  }

  lemma FirstWord(s: seq<mpw>)
    requires |s| > 0
    ensures LeftToWrite(Val(s), Val(s[..|s| - 1]), 0, s[|s| - 1])
  {
    hide P2, Val;
    P2Word();
    ValSnoc(s);
  }

  /** Fills the octets from the right. */
  method WriteOctets(osdata: array<byte>, front: nat, significant: nat, idata: array<mpw>, isize: nat, ghost v: nat)
    requires 0 < significant && front + significant <= osdata.Length && 0 < isize <= idata.Length
    requires v == Val(idata[0..isize]) && NeedsOctets(v, significant)
    modifies osdata
    ensures OctetVal(osdata[front..front + significant]) == v
    ensures osdata[..front] == old(osdata[..front])
    ensures osdata[front + significant..] == old(osdata[front + significant..])
  {
    hide Val, P, P2, B, OctetVal, LeftToWrite, Shr;
    ghost var end := front + significant;
    var count: nat, words: nat, shift: nat := significant, isize - 1, 0;
    var w: mpw := idata[words];
    ghost var left: nat := v;
    FirstWord(idata[0..isize]);
    assert idata[0..isize][..words] == idata[0..words];
    ShiftedOn(w, 0);
    BSucc(0);
    OctetZeros([]);
    assert osdata[end..end] == [];
    while count > 0
      invariant shift % 8 == 0 && count <= significant && words < isize
      invariant shift + 8 <= MP_WBITS || (shift == MP_WBITS && words == 0)
      invariant OctetVal(osdata[front + count..end]) + left * B(significant - count) == v
      invariant NeedsOctets(left, count) && LeftToWrite(left, Val(idata[0..words]), shift, Shr(w, shift))
      invariant osdata[..front] == old(osdata[..front]) && osdata[end..] == old(osdata[end..])
    {
      FewerOctets(left, count);
      NoMoreWords(left, idata[0..words], shift, Shr(w, shift));
      count := count - 1;
      TakeOctet(left, Val(idata[0..words]), shift, Shr(w, shift));
      PutOctet(osdata, front, count, end, Shr(w, shift), left, v, significant);
      ShiftedOn(w, shift);
      left := left / 256;
      shift := shift + 8;
      if shift == MP_WBITS && words > 0 {
        ghost var D := idata[0..words];
        NextWordLeft(left, D, Shr(w, shift));
        shift, words := 0, words - 1;
        w := idata[words];
        ShiftedOn(w, 0);
        assert D[..words] == idata[0..words] && D[words] == w;
        assert LeftToWrite(left, Val(idata[0..words]), 0, w);
      }
    }
    BSucc(0);
  }

  lemma NoMoreWords(left: nat, words: seq<mpw>, shift: nat, rem: nat)
    requires left > 0 && LeftToWrite(left, Val(words), shift, rem)
    requires shift + 8 <= MP_WBITS || (shift == MP_WBITS && |words| == 0)
    ensures shift + 8 <= MP_WBITS
  {
    hide P2, LeftToWrite;
    ValEmpty([]);
    if shift == MP_WBITS {
      assert words == [];
      NothingLeft(left, shift, rem);
    }
  }

  method PutOctet(osdata: array<byte>, front: nat, count: nat, ghost end: nat, rest: mpw, ghost left: nat,
                  ghost v: nat, ghost all: nat)
    requires front + count < end <= osdata.Length && end == front + all
    requires OctetVal(osdata[front + count + 1..end]) + left * B(all - count - 1) == v
    requires left % 256 == rest as int % 256
    modifies osdata
    ensures OctetVal(osdata[front + count..end]) + (left / 256) * B(all - count) == v
    ensures osdata[..front] == old(osdata[..front]) && osdata[end..] == old(osdata[end..])
  {
    hide B, OctetVal;
    ghost var s := osdata[front + count + 1..end];
    osdata[front + count] := rest as int % 256;
    assert osdata[front + count..end] == [rest as int % 256] + s;
    OctetInFront(s, rest as int % 256, left, v);
  }

  // ----- octet string to integer

  /** What has been read: the words stored so far, and c octets of the next one. */
  ghost predicate HasRead(v: nat, words: nat, c: nat, w: nat) {
    c <= 8 && w < B(c) && v == words * B(c) + w
  }

  lemma ReadOctet(v: nat, words: nat, c: nat, w: nat, b: byte)
    requires HasRead(v, words, c, w) && c < 8
    ensures HasRead(v * 256 + b, words, c + 1, w * 256 + b) && w * 256 + b < W
  {
    hide B;
    BSucc(c);
    OctetScaled(words, B(c), w);
    BMono(c + 1, 8);
    BWords(1);
    PSucc(0);
  }

  lemma WordRead(v: nat, words: nat, c: nat, w: nat)
    requires HasRead(v, words, c, w) && (c == 8 || words == 0)
    ensures v == words * W + w && HasRead(v, v, 0, 0)
  {
    hide B;
    BWords(1);
    PSucc(0);
    BSucc(0);
  }

  lemma OctetSnoc(s: seq<byte>)
    requires |s| > 0
    ensures OctetVal(s) == OctetVal(s[..|s| - 1]) * 256 + s[|s| - 1]
  {
  }

  /** There is an octet that is not zero in the string, or any octet behind it: the search for leading zeros
      looks at the octet before it compares the size. */
  ghost predicate Readable(osdata: array<byte>, ossize: nat)
    reads osdata
  {
    ossize < osdata.Length || (ossize == osdata.Length && exists i :: 0 <= i < ossize && osdata[i] != 0)
  }

  /** The leading zero octets, which are not counted. */
  method SkipZeros(osdata: array<byte>, ossize: nat) returns (o: nat)
    requires Readable(osdata, ossize)
    ensures o <= ossize && OctetVal(osdata[o..ossize]) == OctetVal(osdata[..ossize])
    ensures o < ossize ==> osdata[o] != 0
  {
    hide OctetVal, B;
    o := 0;
    // the octet behind the string is looked at when all of the string is zero
    while osdata[o] == 0 && o < ossize
      invariant o <= ossize && forall j :: 0 <= j < o ==> osdata[j] == 0
    {
      o := o + 1;
    }
    OctetZeros(osdata[..o]);
    OctetConcat(osdata[..o], osdata[o..ossize]);
    assert osdata[..ossize] == osdata[..o] + osdata[o..ossize];
  }

  /** The number of words that significant octets need. */
  lemma RequiredWords(s: seq<byte>, isize: nat)
    requires |s| > 0 ==> s[0] != 0
    ensures (|s| + 7) / 8 <= isize <==> OctetVal(s) < P(isize)
  {
    hide B, P, OctetVal;
    BWords(isize);
    OctetBound(s);
    if |s| <= 8 * isize {
      BMono(|s|, 8 * isize);
    } else {
      OctetCons(s);
      MulMono(1, s[0], B(|s| - 1));
      BMono(8 * isize, |s| - 1);
    }
  }

  /** Reads the octets from left to right; the first word takes those that do not fill a word. */
  method ReadOctets(idata: array<mpw>, front: nat, isize: nat, osdata: array<byte>, o: nat, end: nat)
    requires front <= isize <= idata.Length && o <= end <= osdata.Length && isize - front == (end - o + 7) / 8
    requires Val(idata[0..front]) == 0
    modifies idata
    ensures Val(idata[0..isize]) == OctetVal(osdata[o..end])
    ensures idata[isize..] == old(idata[isize..])
  {
    hide Val, B, OctetVal, HasRead;
    ghost var S := osdata[o..end];
    var b: nat := if (end - o) % 8 == 0 then 8 else (end - o) % 8;
    var k, pos := o, front;
    var w: mpw := 0;
    ghost var c: nat := 0;
    NothingRead();
    assert osdata[o..o] == [];
    while k < end
      invariant o <= k <= end && pos <= isize && 0 < b && b + c <= 8 && end - k == b + 8 * (isize - 1 - pos)
      invariant b + c == 8 || Val(idata[0..pos]) == 0
      invariant HasRead(OctetVal(osdata[o..k]), Val(idata[0..pos]), c, w) && osdata[o..end] == S
      invariant k == end ==> c == 0 && w == 0
      invariant idata[isize..] == old(idata[isize..])
    {
      ghost var v: nat := OctetVal(osdata[o..k]);
      ReadOctet(v, Val(idata[0..pos]), c, w, osdata[k]);
      OctetSnoc(osdata[o..k + 1]);
      assert osdata[o..k + 1][..k - o] == osdata[o..k];
      w := (w as int * 256 + osdata[k]) % W;
      k, b, c := k + 1, b - 1, c + 1;
      if b == 0 {
        StoreWord(idata, pos, w, OctetVal(osdata[o..k]), c);
        pos, w, b, c := pos + 1, 0, 8, 0;
      }
    }
    AllRead(OctetVal(osdata[o..end]), Val(idata[0..pos]));
  }

  lemma NothingRead()
    ensures OctetVal([]) == 0 && HasRead(0, 0, 0, 0)
  {
  }

  lemma AllRead(v: nat, words: nat)
    requires HasRead(v, words, 0, 0)
    ensures v == words
  {
  }

  method StoreWord(idata: array<mpw>, pos: nat, w: mpw, ghost v: nat, ghost c: nat)
    requires pos < idata.Length && HasRead(v, Val(idata[0..pos]), c, w)
    requires c == 8 || Val(idata[0..pos]) == 0
    modifies idata
    ensures HasRead(v, Val(idata[0..pos + 1]), 0, 0)
    ensures idata[pos + 1..] == old(idata[pos + 1..])
  {
    hide Val, HasRead;
    ghost var words := idata[0..pos];
    WordRead(v, Val(words), c, w);
    idata[pos] := w;
    ValSnoc(idata[0..pos + 1]);
    assert idata[0..pos + 1][..pos] == words;
  }

  /** Reads the octet string into isize words, if they can hold it. */
  method Os2ip(idata: array<mpw>, isize: nat, osdata: array<byte>, ossize: nat) returns (ok: bool)
    requires isize <= idata.Length && Readable(osdata, ossize)
    modifies idata
    ensures ok <==> OctetVal(osdata[..ossize]) < P(isize)
    ensures ok ==> idata[0..isize] == ToWords(OctetVal(osdata[..ossize]), isize)
    ensures !ok ==> idata[..] == old(idata[..])
    ensures idata[isize..] == old(idata[isize..])
  {
    hide Val, P, B, OctetVal, ToWords;
    var o := SkipZeros(osdata, ossize);
    ghost var S := osdata[o..ossize];
    var size := ossize - o;
    var required := (size + 7) / 8;
    RequiredWords(S, isize);
    ok := isize >= required;
    if ok {
      var front := isize - required;
      MpZero(front, idata, 0);
      ReadOctets(idata, front, isize, osdata, o, ossize);
      ValInjective(idata[0..isize], ToWords(OctetVal(osdata[..ossize]), isize));
    }
  }

  /** Words come back from their octets, and octets from their words, whenever these can hold the number. */
  lemma RoundTrip(words: seq<mpw>, octets: seq<byte>)
    ensures Val(words) < P(|words|) && OctetVal(octets) < B(|octets|)
    ensures Val(words) < B(|octets|) ==> ToWords(OctetVal(ToOctets(Val(words), |octets|)), |words|) == words
    ensures OctetVal(octets) < P(|words|) ==> ToOctets(Val(ToWords(OctetVal(octets), |words|)), |octets|) == octets
  {
    hide Val, OctetVal, P, B, ToWords, ToOctets;
    ValBound(words);
    OctetBound(octets);
    if Val(words) < B(|octets|) {
      ValInjective(ToWords(Val(words), |words|), words);
    }
    if OctetVal(octets) < P(|words|) {
      OctetInjective(ToOctets(OctetVal(octets), |octets|), octets);
    }
  }
}
