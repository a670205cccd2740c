/** Padding to whole blocks (blockpad.c). */
module BlockPad {
  import opened Arith
  import opened Bytes
  import opened Words

  /** A buffer with the number of bytes in use. */
  class MemChunk {
    var size: nat
    var data: array<byte>

    constructor (size: nat)
      ensures Valid() && this.size == size == data.Length && fresh(data)
    {
      this.size := size;
      data := new byte[size];
    }

    ghost predicate Valid()
      reads this
    {
      size <= data.Length
    }

    ghost function Contents(): (s: seq<byte>)
      requires Valid()
      reads this, data
    {
      data[..size]
    }
  }

  // ----- padding of strings

  /** The number of bytes that fill the last block: a whole block when there is nothing to fill. */
  function PadValue(blockbytes: nat, n: nat): (v: nat)
    requires 0 < blockbytes < 256
    ensures 0 < v <= blockbytes && (n + v) % blockbytes == 0 && n + v >= blockbytes
  {
    PadValueFills(blockbytes, n);
    blockbytes - n % blockbytes
  }

  lemma PadValueFills(b: nat, n: nat)
    requires 0 < b
    ensures (n + (b - n % b)) % b == 0 && n % b <= n
  {
    DivMod(n, b);
    if n < b {
      DivModUnique(n, b, 0, n);
    }
    MulSum(n / b, 1, b);
    DivModUnique(n + (b - n % b), b, n / b + 1, 0);
  }

  function Padded(blockbytes: nat, m: seq<byte>): (s: seq<byte>)
    requires 0 < blockbytes < 256
    ensures |s| % blockbytes == 0 && |s| >= blockbytes
  {
    var v := PadValue(blockbytes, |m|);
    m + Repeat(v, v)
  }

  /** The last byte tells how many bytes at the end have its value. */
  ghost predicate EndsInPadding(s: seq<byte>) {
    |s| > 0 && s[|s| - 1] <= |s| && forall i :: |s| - s[|s| - 1] <= i < |s| ==> s[i] == s[|s| - 1]
  }

  /** What unpadding accepts. */
  ghost predicate Unpaddable(blockbytes: nat, s: seq<byte>) {
    EndsInPadding(s) && s[|s| - 1] <= blockbytes
  }

  function Unpadded(s: seq<byte>): seq<byte>
    requires |s| > 0 && s[|s| - 1] <= |s|
  {
    s[..|s| - s[|s| - 1]]
  }

  /** The message, and then from one to a whole block of bytes, each of which is their number. */
  lemma PaddedLayout(blockbytes: nat, m: seq<byte>)
    requires 0 < blockbytes < 256
    ensures var s := Padded(blockbytes, m);
            && |m| < |s| <= |m| + blockbytes && |s| % blockbytes == 0 && s[..|m|] == m
            && forall i :: |m| <= i < |s| ==> s[i] as int == |s| - |m|
  {
    var s := Padded(blockbytes, m);
    assert s[..|m|] == m;
  }

  /** A string ends in padding just when its end is as many copies of the last byte as that byte says. */
  lemma EndsInCopies(s: seq<byte>)
    requires |s| > 0
    ensures EndsInPadding(s) <==> s[|s| - 1] <= |s| && s[|s| - s[|s| - 1]..] == Repeat(s[|s| - 1], s[|s| - 1])
  {
    var b := s[|s| - 1];
    if b <= |s| {
      assert forall i :: |s| - b <= i < |s| ==> s[i] == s[|s| - b..][i - (|s| - b)];
    }
  }

  /** Unpadding restores what was padded. */
  lemma UnpadRestores(blockbytes: nat, m: seq<byte>)
    requires 0 < blockbytes < 256
    ensures Unpaddable(blockbytes, Padded(blockbytes, m)) && Unpadded(Padded(blockbytes, m)) == m
  {
    var s := Padded(blockbytes, m);
    assert s[..|m|] == m;
  }

  /** Of the whole blocks that unpadding accepts, those that end in a zero byte are the padding of nothing. */
  lemma UnpadAcceptsPadded(blockbytes: nat, s: seq<byte>)
    requires 0 < blockbytes < 256 && |s| > 0 && |s| % blockbytes == 0
    ensures Unpaddable(blockbytes, s) <==> s[|s| - 1] == 0 || exists m :: Padded(blockbytes, m) == s
  {
    if Unpaddable(blockbytes, s) && s[|s| - 1] != 0 {
      var m := Unpadded(s);
      var v: nat := s[|s| - 1];
      SamePad(blockbytes, |m|, v);
      assert s == m + Repeat(v, v);
      assert Padded(blockbytes, m) == s;
    }
    if m :| Padded(blockbytes, m) == s {
      UnpadRestores(blockbytes, m);
    }
  }

  lemma SamePad(b: nat, n: nat, v: nat)
    requires 0 < v <= b < 256 && (n + v) % b == 0
    ensures PadValue(b, n) == v
  {
    var i := (n + v) / b;
    DivMod(n + v, b);
    MulDiff(i, 1, b);
    DivModUnique(n, b, i - 1, b - v);
  }

  // ----- operations

  method Pkcs5PadCopy(blockbytes: nat, src: MemChunk) returns (tmp: MemChunk)
    requires 0 < blockbytes < 256 && src.Valid()
    ensures fresh(tmp) && fresh(tmp.data) && tmp.Valid()
    ensures tmp.Contents() == Padded(blockbytes, src.Contents())
  {
    var padvalue := PadValue(blockbytes, src.size);
    tmp := new MemChunk(src.size + padvalue);
    var i := 0;
    while i < src.size
      invariant i <= src.size && tmp.data.Length == src.size + padvalue && tmp.size == src.size + padvalue
      invariant fresh(tmp.data) && tmp.data[..i] == src.data[..i]
    {
      tmp.data[i] := src.data[i];
      i := i + 1;
    }
    while i < src.size + padvalue
      invariant src.size <= i <= src.size + padvalue
      invariant tmp.data.Length == src.size + padvalue && tmp.size == src.size + padvalue
      invariant fresh(tmp.data) && tmp.data[..src.size] == src.data[..src.size]
      invariant forall j :: src.size <= j < i ==> tmp.data[j] == padvalue
    {
      tmp.data[i] := padvalue;
      i := i + 1;
    }
  }

  /** Whether the bytes from size - padvalue up to the last one have its value. A difference below zero
      wraps around, and no byte is looked at. */
  method CheckPadding(chunk: MemChunk, padvalue: nat) returns (ok: bool)
    requires chunk.Valid() && 0 < chunk.size && padvalue == chunk.data[chunk.size - 1]
    ensures ok <==> padvalue > chunk.size || EndsInPadding(chunk.Contents())
  {
    ghost var s := chunk.Contents();
    assert s[|s| - 1] == padvalue;
    if padvalue > chunk.size {
      return true;
    }
    var i := chunk.size - padvalue;
    while i < chunk.size - 1
      invariant chunk.size - padvalue <= i
      invariant forall j :: chunk.size - padvalue <= j < i && j < chunk.size ==> s[j] == padvalue
    {
      if chunk.data[i] != padvalue {
        assert s[i] != padvalue;
        return false;
      }
      i := i + 1;
    }
    ok := true;
  }

  /** Removes the padding in place; leaves the chunk as it is when there is none. In a chunk shorter than a
      block the last byte can be larger than the size, which then wraps around. */
  method Pkcs5Unpad(blockbytes: nat, tmp: MemChunk) returns (ok: bool)
    requires tmp.Valid() && 0 < tmp.size
    modifies tmp`size
    ensures ok <==> || Unpaddable(blockbytes, old(tmp.Contents()))
                    || old(tmp.size) < LastByte(old(tmp.Contents())) <= blockbytes
    ensures ok ==> old(tmp.data[tmp.size - 1]) <= blockbytes
    ensures if ok && LastByte(old(tmp.Contents())) > old(tmp.size) then
              tmp.size == W + old(tmp.size) - LastByte(old(tmp.Contents()))
            else
              tmp.Valid() && tmp.Contents() == if ok then Unpadded(old(tmp.Contents())) else old(tmp.Contents())
  {
    ghost var s := tmp.Contents();
    var padvalue := tmp.data[tmp.size - 1];
    assert LastByte(s) == padvalue;
    if padvalue > blockbytes {
      return false;
    }
    ok := CheckPadding(tmp, padvalue);
    if ok {
      tmp.size := if padvalue > tmp.size then W + tmp.size - padvalue else tmp.size - padvalue;
      assert padvalue <= |s| ==> tmp.data[..tmp.size] == s[..|s| - padvalue];
    }
  }

  function LastByte(s: seq<byte>): byte
    requires |s| > 0
  {
    s[|s| - 1]
  }

  /** Copies what precedes the padding. Its length is not compared with that of a block; a last byte larger
      than the chunk asks for more memory than there is. */
  method Pkcs5UnpadCopy(src: MemChunk) returns (ok: bool, tmp: MemChunk)
    requires src.Valid() && 0 < src.size
    ensures ok <==> EndsInPadding(src.Contents())
    ensures tmp.Valid() && (ok ==> tmp.Contents() == Unpadded(src.Contents()))
  {
    ghost var s := src.Contents();
    var padvalue := src.data[src.size - 1];
    assert s[|s| - 1] == padvalue;
    tmp := new MemChunk(0);
    ok := CheckPadding(src, padvalue);
    if padvalue > src.size {
      return false, tmp;
    }
    if ok {
      tmp := new MemChunk(src.size - padvalue);
      var i := 0;
      while i < tmp.size
        invariant i <= tmp.size == tmp.data.Length == src.size - padvalue
        invariant fresh(tmp) && fresh(tmp.data) && tmp.data[..i] == src.data[..i]
      {
        tmp.data[i] := src.data[i];
        i := i + 1;
      }
      assert src.data[..tmp.size] == s[..|s| - padvalue];
    }
  }
}
