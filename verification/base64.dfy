/** Base64 (base64.c): b64encode with its line breaks, and b64decode. */
module Base64 {
  import opened Arith
  import opened Bytes

  // ----- symbols

  const PAD: byte := 61

  /** The symbol of a six-bit number. */
  function Symbol(v: int): (c: byte)
    requires 0 <= v < 64
    ensures c != 0 && c != PAD
  {
    if v < 26 then 65 + v
    else if v < 52 then 97 + (v - 26)
    else if v < 62 then 48 + (v - 52)
    else if v == 62 then 43 else 47
  }

  const INVALID: byte := 0x80
  const WHITE: byte := 0x81

  /** The decoding table: a six-bit number, or one of the two marks. */
  function Decoding(white: seq<byte>, c: byte): (v: byte)
    ensures v < 64 || v == INVALID || v == WHITE
  {
    if 65 <= c <= 90 then c - 65
    else if 97 <= c <= 122 then 26 + (c - 97)
    else if 48 <= c <= 57 then 52 + (c - 48)
    else if c == 43 then 62
    else if c == 47 then 63
    else if c == PAD then 0
    else if c in white then WHITE else INVALID
  }

  lemma SymbolDecodes(white: seq<byte>, v: int)
    requires 0 <= v < 64
    ensures Decoding(white, Symbol(v)) == v
  {
  }

  const ALPHABET: string := "ABCDEFGHIJKLMNOPQRSTUVWXYZ" + "abcdefghijklmnopqrstuvwxyz" + "0123456789+/"

  /** The symbols in the order of RFC 4648, section 4, table 1. */
  lemma Alphabet(v: int)
    requires 0 <= v < 64
    ensures |ALPHABET| == 64 && Symbol(v) == ALPHABET[v] as int
  {
    var a, b, c := "ABCDEFGHIJKLMNOPQRSTUVWXYZ", "abcdefghijklmnopqrstuvwxyz", "0123456789+/";
    assert ALPHABET == (a + b) + c;
    assert ALPHABET[v] == if v < 26 then a[v] else if v < 52 then b[v - 26] else c[v - 52];
  }

  /** The decoding table undoes the symbols, reads the padding as zero and leaves white space to the rest. */
  lemma TableEntries(white: seq<byte>, c: byte)
    ensures var v := Decoding(white, c);
            if c == PAD then v == 0
            else if exists u :: 0 <= u < 64 && Symbol(u) == c then v < 64 && Symbol(v) == c
            else v == if c in white then 0x81 else 0x80
  {
    var v := Decoding(white, c);
    if v < 64 && c != PAD {
      assert Symbol(v) == c;
    }
  }

  predicate White(white: seq<byte>, c: byte) {
    Decoding(white, c) == WHITE
  }

  // ----- encoding

  /** Four symbols for up to three bytes. */
  function Quartet(s: seq<byte>): (q: seq<byte>)
    requires 0 < |s| <= 3
    ensures |q| == 4
  {
    var second := if |s| > 1 then s[1] else 0;
    var third := if |s| > 2 then s[2] else 0;
    [
      Symbol(s[0] / 4),
      Symbol(s[0] % 4 * 16 + second / 16),
      if |s| > 1 then Symbol(second % 16 * 4 + third / 64) else PAD,
      if |s| > 2 then Symbol(third % 64) else PAD
    ]
  }

  /** The encoding when lc symbols are already on the line: a line of cpl symbols or more is ended. */
  function Lines(s: seq<byte>, lc: nat, cpl: int, eol: seq<byte>): seq<byte> {
    if |s| == 0 then
      if cpl > 0 && lc != 0 then eol else []
    else if |s| < 3 then
      Quartet(s) + if cpl > 0 then eol else []
    else if cpl > 0 && lc + 4 >= cpl then
      Quartet(s[..3]) + eol + Lines(s[3..], 0, cpl, eol)
    else
      Quartet(s[..3]) + Lines(s[3..], lc + 4, cpl, eol)
  }

  /** The four symbols are the digits of the 24 bits that the bytes make, a missing byte being zero. */
  lemma QuartetNumber(white: seq<byte>, s: seq<byte>)
    requires 0 < |s| <= 3
    ensures var q := Quartet(s);
            var a: int, b: int, c: int, d: int :=
              Decoding(white, q[0]), Decoding(white, q[1]), Decoding(white, q[2]), Decoding(white, q[3]);
            var x: int, y: int, z: int := s[0], if |s| > 1 then s[1] else 0, if |s| > 2 then s[2] else 0;
            a * 262144 + b * 4096 + c * 64 + d == x * 65536 + y * 256 + z
    ensures (Quartet(s)[2] == PAD <==> |s| == 1) && (Quartet(s)[3] == PAD <==> |s| < 3)
  {
    hide Decoding, Symbol;
    var x: byte, y: byte, z: byte := s[0], if |s| > 1 then s[1] else 0, if |s| > 2 then s[2] else 0;
    PadIsNotWhite(white);
    SymbolDecodes(white, x / 4);
    SymbolDecodes(white, x % 4 * 16 + y / 16);
    SymbolDecodes(white, y % 16 * 4 + z / 64);
    SymbolDecodes(white, z % 64);
  }

  /** Four symbols for every three bytes begun. */
  function Symbols(n: nat): nat {
    (n + 2) / 3 * 4
  }

  /** x / c, rounded up */
  function Ceiling(x: nat, c: int): int
    requires c > 0
  {
    (x + c - 1) / c
  }

  lemma CeilingStep(x: nat, y: nat, c: int)
    requires c > 0
    ensures x >= y + c ==> Ceiling(x, c) >= Ceiling(y, c) + 1
    ensures x > 0 ==> Ceiling(x, c) >= 1
    ensures Ceiling(x, c) >= 0
  {
    DivMod(x + c - 1, c);
    DivMod(y + c - 1, c);
    var a, b := Ceiling(x, c), Ceiling(y, c);
    if a < b + 1 {
      MulMono(a, b, c);
    }
    if a < 1 {
      MulMono(a, 0, c);
    }
    if a < 0 {
      MulMono(a, -1, c);
    }
  }

  /** No more lines are ended than the symbols fill or begin. */
  lemma {:induction false} LinesLength(s: seq<byte>, lc: nat, cpl: int, eol: seq<byte>)
    requires cpl > 0 && lc < cpl
    ensures |Lines(s, lc, cpl, eol)| <= Symbols(|s|) + Ceiling(lc + Symbols(|s|), cpl) * |eol|
  {
    hide Ceiling, Quartet;
    var x := lc + Symbols(|s|);
    CeilingStep(x, 0, cpl);
    if |s| < 3 {
      if x > 0 {
        MulMono(1, Ceiling(x, cpl), |eol|);
      } else {
        MulMono(0, Ceiling(x, cpl), |eol|);
      }
    } else {
      assert Symbols(|s|) == 4 + Symbols(|s[3..]|);
      if lc + 4 >= cpl {
        var y := Symbols(|s[3..]|);
        LinesLength(s[3..], 0, cpl, eol);
        CeilingStep(x, y, cpl);
        MulMono(Ceiling(0 + y, cpl) + 1, Ceiling(x, cpl), |eol|);
        MulSum(Ceiling(0 + y, cpl), 1, |eol|);
      } else {
        LinesLength(s[3..], lc + 4, cpl, eol);
      }
    }
  }

  lemma {:induction false} NoLinesLength(s: seq<byte>, lc: nat, cpl: int, eol: seq<byte>)
    requires cpl <= 0
    ensures |Lines(s, lc, cpl, eol)| == Symbols(|s|)
  {
    hide Quartet;
    if |s| >= 3 {
      NoLinesLength(s[3..], lc + 4, cpl, eol);
    }
  }

  /** A line that takes n quartets more is ended by the last of them. */
  lemma {:induction false} LineOf(s: seq<byte>, lc: nat, cpl: int, eol: seq<byte>, n: nat)
    requires 0 < n && lc + 4 * n - 4 < cpl <= lc + 4 * n
    ensures if |s| >= 3 * n then
              Lines(s, lc, cpl, eol) == Lines(s[..3 * n], lc, 0, []) + (eol + Lines(s[3 * n..], 0, cpl, eol))
            else if lc > 0 || |s| > 0 then
              Lines(s, lc, cpl, eol) == Lines(s, lc, 0, []) + eol
            else
              Lines(s, lc, cpl, eol) == []
    decreases n
  {
    hide Quartet;
    if |s| < 3 {
      assert [] + eol == eol;
    } else if n == 1 {
      assert Lines([], lc + 4, 0, []) == [];
      assert s[..3][..3] == s[..3] && s[..3][3..] == [];
      assert Lines(s[..3], lc, 0, []) == Quartet(s[..3]) + [];
    } else {
      LineOf(s[3..], lc + 4, cpl, eol, n - 1);
      if |s| >= 3 * n {
        assert s[..3 * n][..3] == s[..3] && s[..3 * n][3..] == s[3..][..3 * n - 3];
        assert s[3..][3 * n - 3..] == s[3 * n..];
      }
    }
  }

  /** The encoding line by line: cpl symbols, rounded up to whole quartets, and the end of the line after each and
      after what remains. */
  lemma WholeLines(s: seq<byte>, cpl: int, eol: seq<byte>)
    requires cpl > 0
    ensures var n := (cpl + 3) / 4;
            if |s| >= 3 * n then
              && |Lines(s[..3 * n], 0, 0, [])| == 4 * n
              && Lines(s, 0, cpl, eol) == Lines(s[..3 * n], 0, 0, []) + (eol + Lines(s[3 * n..], 0, cpl, eol))
            else
              Lines(s, 0, cpl, eol) == Lines(s, 0, 0, []) + if |s| > 0 then eol else []
  {
    hide Lines;
    var n := (cpl + 3) / 4;
    LineOf(s, 0, cpl, eol, n);
    if |s| >= 3 * n {
      NoLinesLength(s[..3 * n], 0, 0, []);
    } else if |s| == 0 {
      NoLinesLength(s, 0, 0, []);
    }
  }

  /** How many bytes are set aside for the encoding of ns bytes, the end of the string not counted. */
  function Capacity(ns: nat, cpl: int, eol: seq<byte>): int {
    var nt := Symbols(ns);
    if cpl > 0 then
      nt + (Ceiling(nt, cpl) + if (nt + cpl - 1) % cpl != 0 then 1 else 0) * |eol|
    else
      nt
  }

  lemma CapacitySuffices(s: seq<byte>, cpl: int, eol: seq<byte>)
    ensures |Lines(s, 0, cpl, eol)| <= Capacity(|s|, cpl, eol)
  {
    hide Ceiling, Lines;
    if cpl > 0 {
      var nt := Symbols(|s|);
      var lines := Ceiling(nt, cpl) + if (nt + cpl - 1) % cpl != 0 then 1 else 0;
      LinesLength(s, 0, cpl, eol);
      MulMono(Ceiling(0 + nt, cpl), lines, |eol|);
    } else {
      NoLinesLength(s, 0, cpl, eol);
    }
  }

  method Append(t: array<byte>, k: nat, s: seq<byte>)
    requires k + |s| <= t.Length
    modifies t
    ensures t[..k + |s|] == old(t[..k]) + s
  {
    ghost var before := t[..k];
    var i := 0;
    assert before + s[..0] == before;
    while i < |s|
      invariant i <= |s| && t[..k + i] == before + s[..i]
    {
      ghost var written := t[..k + i];
      t[k + i] := s[i];
      assert t[..k + i + 1] == written + [s[i]] && s[..i + 1] == s[..i] + [s[i]];
      assert (before + s[..i]) + [s[i]] == before + (s[..i] + [s[i]]);
      i := i + 1;
    }
    assert s[..|s|] == s;
  }

  /** The symbols of the next bytes, up to three of them, and how many of them are counted on the line. */
  method PutQuartet(t: array<byte>, k: nat, data: array<byte>, i: nat, end: nat) returns (next: nat, counted: nat)
    requires k + 4 <= t.Length && i < end <= data.Length && t != data
    modifies t
    ensures next == if end - i < 3 then end else i + 3
    ensures t[..k + 4] == old(t[..k]) + Quartet(old(data[i..next]))
    ensures counted == next - i + 1
  {
    hide Symbol;
    ghost var before, s := t[..k], data[i..if end - i < 3 then end else i + 3];
    assert s[0] == data[i] && (|s| > 1 ==> s[1] == data[i + 1]) && (|s| > 2 ==> s[2] == data[i + 2]);
    var c := data[i];
    next, counted := i + 1, 2;
    t[k] := Symbol(c / 4);
    t[k + 1] := Symbol(c % 4 * 16 + (if next < end then data[next] else 0) / 16);
    if next == end {
      t[k + 2], t[k + 3] := PAD, PAD;
      FourMore(t[..k + 4], before, Quartet(s));
      return;
    }
    c := data[next];
    next, counted := next + 1, 3;
    t[k + 2] := Symbol(c % 16 * 4 + (if next < end then data[next] else 0) / 64);
    if next == end {
      t[k + 3] := PAD;
      FourMore(t[..k + 4], before, Quartet(s));
      return;
    }
    t[k + 3] := Symbol(data[next] % 64);
    next, counted := next + 1, 4;
    FourMore(t[..k + 4], before, Quartet(s));
  }

  lemma FourMore(t: seq<byte>, before: seq<byte>, q: seq<byte>)
    requires |q| == 4 && |t| == |before| + 4 && t[..|before|] == before
    requires forall j {:trigger q[j]} :: 0 <= j < 4 ==> t[|before| + j] == q[j]
    ensures t == before + q
  {
  }

  /** The encoding of size bytes, or of a string when no size is given, in a buffer that is large enough. */
  method B64Encode(data: array<byte>, size: nat, cpl: int, eol: seq<byte>) returns (t: array<byte>)
    requires size <= data.Length && (size == 0 ==> exists i :: 0 <= i < data.Length && data[i] == 0)
    ensures var s := if size > 0 then data[..size] else StringIn(data[..]);
            var encoded := Lines(s, 0, cpl, eol);
            && |encoded| < t.Length == Capacity(|s|, cpl, eol) + 1 && t[..|encoded|] == encoded && t[|encoded|] == 0
            && (0 !in eol ==> IsString(t, |encoded|))
  {
    hide Lines, Quartet, Capacity;
    var end := size;
    if end == 0 {
      end := StrLen(data);
    }
    ghost var S := data[..end];
    ghost var all := Lines(S, 0, cpl, eol);
    CapacitySuffices(S, cpl, eol);
    t := new byte[Capacity(end, cpl, eol) + 1];
    var k: nat, i: nat, lc: nat := 0, 0, 0;
    assert S[0..] == S;
    while i < end
      invariant i <= end && k <= |all| < t.Length && S == data[..end]
      invariant t[..k] + Lines(S[i..], lc, cpl, eol) == all
    {
      k, i, lc := EncodeNext(t, k, data, i, end, lc, cpl, eol, S, all);
    }
    LastLine(lc, cpl, eol);
    assert S[end..] == [];
    if cpl > 0 && lc != 0 {
      Append(t, k, eol);
      k := k + |eol|;
    }
    assert t[..k] == all;
    t[k] := 0;
    assert t[..k] == all;
    if 0 !in eol {
      NoZeroInLines(S, 0, cpl, eol);
      assert forall j :: 0 <= j < k ==> t[j] == all[j];
    }
  }

  lemma NoZeroInQuartet(s: seq<byte>)
    requires 0 < |s| <= 3
    ensures 0 !in Quartet(s)
  {
  }

  /** No byte of an encoding ends the string early. */
  lemma {:induction false} NoZeroInLines(s: seq<byte>, lc: nat, cpl: int, eol: seq<byte>)
    requires 0 !in eol
    ensures 0 !in Lines(s, lc, cpl, eol)
    decreases |s|
  {
    hide Quartet;
    if |s| > 0 {
      var n := if |s| < 3 then |s| else 3;
      LinesNext(s, lc, cpl, eol, n);
      NoZeroInQuartet(s[..n]);
      NoZeroInLines(s[n..], 0, cpl, eol);
      NoZeroInLines(s[n..], lc + n + 1, cpl, eol);
    }
  }

  lemma LastLine(lc: nat, cpl: int, eol: seq<byte>)
    ensures Lines([], lc, cpl, eol) == if cpl > 0 && lc != 0 then eol else []
  {
  }

  /** The bytes in front of the first zero byte. */
  function StringIn(s: seq<byte>): (t: seq<byte>)
    ensures 0 !in t && |t| <= |s| && t == s[..|t|]
    ensures |t| < |s| ==> s[|t|] == 0
  {
    if |s| == 0 || s[0] == 0 then [] else [s[0]] + StringIn(s[1..])
  }

  method StrLen(data: array<byte>) returns (n: nat)
    requires exists i :: 0 <= i < data.Length && data[i] == 0
    ensures n < data.Length && data[..n] == StringIn(data[..])
  {
    n := 0;
    assert data[..][0..] == data[..];
    while data[n] != 0
      invariant n < data.Length && data[..n] + StringIn(data[..][n..]) == StringIn(data[..])
      invariant exists i :: n <= i < data.Length && data[i] == 0
      decreases data.Length - n
    {
      n := n + 1;
    }
  }

  lemma NextBytes(s: seq<byte>, i: nat, j: nat)
    requires i <= j <= |s|
    ensures s[i..][..j - i] == s[i..j] && s[i..][j - i..] == s[j..]
  {
  }

  /** The first quartet, and the end of the line if it is full. */
  lemma LinesNext(s: seq<byte>, lc: nat, cpl: int, eol: seq<byte>, n: nat)
    requires 0 < n <= |s| && n == if |s| < 3 then |s| else 3
    ensures Lines(s, lc, cpl, eol) ==
            if |s| >= 3 && cpl > 0 && lc + n + 1 >= cpl then
              Quartet(s[..n]) + (eol + Lines(s[n..], 0, cpl, eol))
            else
              Quartet(s[..n]) + Lines(s[n..], lc + n + 1, cpl, eol)
  {
    hide Quartet;
    if |s| < 3 {
      assert s[..n] == s && s[n..] == [];
    }
  }

  /** One quartet, and the end of the line if it is full. */
  method EncodeNext(t: array<byte>, k: nat, data: array<byte>, i: nat, end: nat, lc: nat, cpl: int, eol: seq<byte>,
                    ghost S: seq<byte>, ghost all: seq<byte>)
      returns (k': nat, i': nat, lc': nat)
    requires i < end <= data.Length && t != data && S == data[..end]
    requires k <= |all| < t.Length && t[..k] + Lines(S[i..], lc, cpl, eol) == all
    modifies t
    ensures i < i' <= end && k' <= |all|
    ensures t[..k'] + Lines(S[i'..], lc', cpl, eol) == all
  {
    hide Quartet, Lines;
    ghost var before, rest := t[..k], S[i..];
    ghost var n := if end - i < 3 then end - i else 3;
    LinesNext(rest, lc, cpl, eol, n);
    NextBytes(S, i, i + n);
    assert data[i..i + n] == S[i..i + n];
    var counted;
    i', counted := PutQuartet(t, k, data, i, end);
    ghost var q := Quartet(rest[..n]);
    k', lc' := k + 4, lc + counted;
    if end - i >= 3 && cpl > 0 && lc' >= cpl {
      Append(t, k', eol);
      k', lc' := k' + |eol|, 0;
      Regrouped(before, q, eol, Lines(S[i'..], 0, cpl, eol));
    } else {
      Regrouped(before, q, [], Lines(S[i'..], lc', cpl, eol));
    }
  }

  lemma Regrouped(a: seq<byte>, b: seq<byte>, c: seq<byte>, d: seq<byte>)
    ensures a + (b + (c + d)) == a + b + c + d
    ensures c == [] ==> a + (b + d) == a + b + d
  {
  }

  // ----- decoding

  /** A character that is not white space, and whether the character before it is none either. */
  datatype Token = Token(ch: byte, glued: bool)

  /** The characters of a string that are not white space; glued tells what came before the string. */
  function Tokens(white: seq<byte>, glued: bool, s: seq<byte>): (q: seq<Token>)
    ensures |q| <= |s|
    decreases |s|
  {
    if |s| == 0 then []
    else if White(white, s[0]) then Tokens(white, false, s[1..])
    else [Token(s[0], glued)] + Tokens(white, true, s[1..])
  }

  datatype Decoded = Bytes(data: seq<byte>) | Failure(code: int)

  /** The bytes that groups of four characters stand for, behind those of acc. Whether the third is
      the padding symbol is read off the character in front of the fourth, whatever that is. */
  function Groups(white: seq<byte>, acc: seq<byte>, q: seq<Token>): Decoded
    decreases |q|
  {
    if |q| < 4 then
      Bytes(acc)
    else
      var a, b := Decoding(white, q[0].ch), Decoding(white, q[1].ch);
      var c, d := Decoding(white, q[2].ch), Decoding(white, q[3].ch);
      var one := acc + [(a * 4 + b / 16) % 256];
      var two := one + [(b * 16 + c / 4) % 256];
      if q[2].ch == PAD && q[3].glued then
        if |q| == 4 then Bytes(one) else Failure(1)
      else if q[3].ch == PAD then
        if |q| == 4 then Bytes(two) else Failure(1)
      else
        Groups(white, two + [(c * 64 + d) % 256], q[4..])
  }

  /** Whether the group of four characters at i ends in padding: the fourth is the padding symbol, or the third is and
      the fourth is right behind it. */
  predicate Padded(q: seq<Token>, i: nat) {
    i + 4 <= |q| && (q[i + 3].ch == PAD || (q[i + 2].ch == PAD && q[i + 3].glued))
  }

  /** What b64decode makes of a string. */
  function Decode(white: seq<byte>, s: seq<byte>): Decoded {
    if exists i :: 0 <= i < |s| && Decoding(white, s[i]) == INVALID then Failure(3)
    else
      var q := Tokens(white, false, s);
      if |q| % 4 != 0 then Failure(2) else Groups(white, [], q)
  }

  // ----- the round trip

  /** The characters of the tokens are quartet after quartet of the encoding. */
  ghost predicate Encodes(q: seq<Token>, s: seq<byte>) {
    if |s| == 0 then q == []
    else
      var n := if |s| < 3 then |s| else 3;
      var c := Quartet(s[..n]);
      && |q| >= 4 && q[0].ch == c[0] && q[1].ch == c[1] && q[2].ch == c[2] && q[3].ch == c[3]
      && Encodes(q[4..], s[n..])
  }

  /** The last two characters stand together. */
  ghost predicate EndsTogether(q: seq<Token>) {
    |q| > 0 ==> q[|q| - 1].glued
  }

  ghost predicate AllWhite(white: seq<byte>, s: seq<byte>) {
    forall i :: 0 <= i < |s| ==> White(white, s[i])
  }

  lemma {:induction false} WhiteSkipped(white: seq<byte>, glued: bool, s: seq<byte>, t: seq<byte>)
    requires AllWhite(white, s)
    ensures Tokens(white, glued, s + t) == Tokens(white, if |s| > 0 then false else glued, t)
    decreases |s|
  {
    if |s| > 0 {
      assert (s + t)[1..] == s[1..] + t;
      WhiteSkipped(white, false, s[1..], t);
    } else {
      assert s + t == t;
    }
  }

  lemma FourTokens(white: seq<byte>, glued: bool, s: seq<byte>, c: seq<byte>, t: seq<byte>)
    requires 0 < |s| <= 3 && c == Quartet(s)
    ensures Tokens(white, glued, c + t) ==
            [Token(c[0], glued), Token(c[1], true), Token(c[2], true), Token(c[3], true)] + Tokens(white, true, t)
  {
    hide Tokens, Decoding;
    QuartetSymbols(white, s);
    TokenFirst(white, glued, c[0], c[1..] + t);
    assert c + t == [c[0]] + (c[1..] + t);
    TokenFirst(white, true, c[1], c[2..] + t);
    assert c[1..] + t == [c[1]] + (c[2..] + t);
    TokenFirst(white, true, c[2], c[3..] + t);
    assert c[2..] + t == [c[2]] + (c[3..] + t);
    TokenFirst(white, true, c[3], t);
    assert c[3..] + t == [c[3]] + t;
  }

  lemma TokenFirst(white: seq<byte>, glued: bool, c: byte, t: seq<byte>)
    requires !White(white, c)
    ensures Tokens(white, glued, [c] + t) == [Token(c, glued)] + Tokens(white, true, t)
  {
    assert ([c] + t)[1..] == t;
  }

  lemma QuartetSymbols(white: seq<byte>, s: seq<byte>)
    requires 0 < |s| <= 3
    ensures forall i :: 0 <= i < 4 ==> Decoding(white, Quartet(s)[i]) < 64
  {
  }

  /** Line ends do not show in the tokens. */
  lemma {:induction false} TokensOfLines(white: seq<byte>, glued: bool, s: seq<byte>, lc: nat, cpl: int, eol: seq<byte>)
    requires AllWhite(white, eol)
    ensures var q := Tokens(white, glued, Lines(s, lc, cpl, eol)); Encodes(q, s) && EndsTogether(q)
    decreases |s|
  {
    hide Tokens, Decoding, Quartet, AllWhite, Encodes, EndsTogether;
    NoTokens(white, glued);
    NoTokens(white, true);
    NoTokens(white, false);
    if |s| == 0 {
      WhiteSkipped(white, glued, eol, []);
      assert eol + [] == eol;
      NothingEncoded();
    } else if |s| < 3 {
      WhiteSkipped(white, true, eol, []);
      assert eol + [] == eol;
      NothingEncoded();
      var tail := if cpl > 0 then eol else [];
      assert s[..|s|] == s && s[|s|..] == [] && Tokens(white, true, tail) == [];
      LineTokens(white, glued, s, tail);
    } else if cpl > 0 && lc + 4 >= cpl {
      var rest := Lines(s[3..], 0, cpl, eol);
      assert Quartet(s[..3]) + eol + rest == Quartet(s[..3]) + (eol + rest);
      WhiteSkipped(white, true, eol, rest);
      TokensOfLines(white, if |eol| > 0 then false else true, s[3..], 0, cpl, eol);
      LineTokens(white, glued, s, eol + rest);
    } else {
      TokensOfLines(white, true, s[3..], lc + 4, cpl, eol);
      LineTokens(white, glued, s, Lines(s[3..], lc + 4, cpl, eol));
    }
  }

  lemma NothingEncoded()
    ensures Encodes([], []) && EndsTogether([])
  {
  }

  /** A quartet in front of an encoding of the rest. */
  lemma LineTokens(white: seq<byte>, glued: bool, s: seq<byte>, t: seq<byte>)
    requires |s| > 0
    requires var n := if |s| < 3 then |s| else 3;
             Encodes(Tokens(white, true, t), s[n..]) && EndsTogether(Tokens(white, true, t))
    ensures var n := if |s| < 3 then |s| else 3;
            var q := Tokens(white, glued, Quartet(s[..n]) + t); Encodes(q, s) && EndsTogether(q)
  {
    hide Tokens, Decoding, Quartet;
    var n := if |s| < 3 then |s| else 3;
    var c, rest := Quartet(s[..n]), Tokens(white, true, t);
    FourTokens(white, glued, s[..n], c, t);
    var q := [Token(c[0], glued), Token(c[1], true), Token(c[2], true), Token(c[3], true)] + rest;
    assert q[4..] == rest;
    if |rest| > 0 {
      assert q[|q| - 1] == rest[|rest| - 1];
    }
  }

  lemma NoTokens(white: seq<byte>, glued: bool)
    ensures Tokens(white, glued, []) == []
  {
  }

  /** A byte is put together again from the parts that the encoding cuts it into. */
  lemma Rejoin(x: byte, y: byte, z: byte)
    ensures (x / 4 * 4 + (x % 4 * 16 + y / 16) / 16) % 256 == x
    ensures ((x % 4 * 16 + y / 16) * 16 + (y % 16 * 4 + z / 64) / 4) % 256 == y
    ensures ((y % 16 * 4 + z / 64) * 64 + z % 64) % 256 == z
  {
    assert (x % 4 * 16 + y / 16) / 16 == x % 4;
    assert (y % 16 * 4 + z / 64) / 4 == y % 16;
    DivModUnique((x % 4 * 16 + y / 16) * 16 + y % 16, 256, x % 4, y);
    DivModUnique((y % 16 * 4 + z / 64) * 64 + z % 64, 256, y % 16, z);
  }

  lemma QuartetBytes(white: seq<byte>, s: seq<byte>)
    requires 0 < |s| <= 3
    ensures var q := Quartet(s);
            var a, b := Decoding(white, q[0]), Decoding(white, q[1]);
            var c, d := Decoding(white, q[2]), Decoding(white, q[3]);
            && (a * 4 + b / 16) % 256 == s[0]
            && (b * 16 + c / 4) % 256 == (if |s| > 1 then s[1] else 0)
            && (|s| > 2 ==> (c * 64 + d) % 256 == s[2])
            && (q[2] == PAD <==> |s| == 1) && (q[3] == PAD <==> |s| < 3)
  {
    hide Decoding, Symbol;
    var x: byte, y: byte, z: byte := s[0], if |s| > 1 then s[1] else 0, if |s| > 2 then s[2] else 0;
    var b, c := x % 4 * 16 + y / 16, y % 16 * 4 + z / 64;
    Rejoin(x, y, z);
    PadIsNotWhite(white);
    SymbolDecodes(white, x / 4);
    SymbolDecodes(white, b);
    SymbolDecodes(white, c);
    SymbolDecodes(white, z % 64);
  }

  /** What decoding adds to the bytes: a zero when the padding of a single byte is torn apart. */
  ghost function Surplus(q: seq<Token>, s: seq<byte>): seq<byte> {
    if |s| % 3 == 1 && !EndsTogether(q) then [0] else []
  }

  lemma {:induction false} GroupsRestore(white: seq<byte>, acc: seq<byte>, q: seq<Token>, s: seq<byte>)
    requires Encodes(q, s)
    ensures |q| % 4 == 0 && Groups(white, acc, q) == Bytes(acc + s + Surplus(q, s))
    decreases |q|
  {
    hide Decoding, Quartet, Groups, Encodes;
    if |s| < 3 {
      LastGroup(white, acc, q, s);
    } else {
      FullGroup(white, acc, q, s);
      GroupsRestore(white, acc + s[..3], q[4..], s[3..]);
      NotTheLast(q, s);
      assert acc + s == acc + s[..3] + s[3..];
    }
  }

  lemma NotTheLast(q: seq<Token>, s: seq<byte>)
    requires |s| >= 3 && |q| >= 4 && Encodes(q[4..], s[3..])
    ensures Surplus(q[4..], s[3..]) == Surplus(q, s)
  {
    hide Quartet;
    var r, t := q[4..], s[3..];
    assert |s| == 3 + |t|;
    if |t| % 3 == 1 {
      assert |r| >= 4 && r[|r| - 1] == q[|q| - 1];
    }
  }

  lemma LastGroup(white: seq<byte>, acc: seq<byte>, q: seq<Token>, s: seq<byte>)
    requires |s| < 3 && Encodes(q, s)
    ensures |q| % 4 == 0 && Groups(white, acc, q) == Bytes(acc + s + Surplus(q, s))
  {
    hide Decoding, Quartet, Groups, Encodes;
    if |s| == 0 {
      NoGroup(white, acc, q, s);
    } else {
      OneGroup(q, s);
      QuartetBytes(white, s);
      PaddedGroup(white, acc, q);
      if |s| == 1 {
        assert acc + s + [] == acc + [s[0]];
        assert acc + s + [0] == acc + [s[0]] + [0];
      } else {
        assert acc + s + [] == acc + [s[0]] + [s[1]];
      }
    }
  }

  lemma NoGroup(white: seq<byte>, acc: seq<byte>, q: seq<Token>, s: seq<byte>)
    requires |s| == 0 && Encodes(q, s)
    ensures q == [] && Groups(white, acc, q) == Bytes(acc + s + Surplus(q, s))
  {
    assert acc + s + [] == acc;
  }

  lemma OneGroup(q: seq<Token>, s: seq<byte>)
    requires 0 < |s| < 3 && Encodes(q, s)
    ensures |q| == 4 && forall i {:trigger q[i]} :: 0 <= i < 4 ==> q[i].ch == Quartet(s)[i]
  {
    hide Quartet;
    assert s[..|s|] == s && s[|s|..] == [];
    assert q[4..] == [];
  }

  lemma PaddedGroup(white: seq<byte>, acc: seq<byte>, q: seq<Token>)
    requires |q| == 4 && q[3].ch == PAD
    ensures var a, b, c := Decoding(white, q[0].ch), Decoding(white, q[1].ch), Decoding(white, q[2].ch);
            var one := acc + [(a * 4 + b / 16) % 256];
            Groups(white, acc, q) ==
            Bytes(if q[2].ch == PAD && q[3].glued then one else one + [(b * 16 + c / 4) % 256])
  {
    hide Decoding;
  }

  lemma FullGroup(white: seq<byte>, acc: seq<byte>, q: seq<Token>, s: seq<byte>)
    requires |s| >= 3 && Encodes(q, s)
    ensures |q| >= 4 && Encodes(q[4..], s[3..])
    ensures Groups(white, acc, q) == Groups(white, acc + s[..3], q[4..])
  {
    hide Decoding, Quartet;
    QuartetBytes(white, s[..3]);
    assert acc + s[..3] == acc + [s[0]] + [s[1]] + [s[2]];
  }

  /** The characters of the tokens alone. */
  function Characters(q: seq<Token>): (s: seq<byte>)
    ensures |s| == |q|
  {
    if |q| == 0 then [] else [q[0].ch] + Characters(q[1..])
  }

  lemma {:induction false} CharactersAt(q: seq<Token>, i: nat)
    requires i < |q|
    ensures Characters(q)[i] == q[i].ch
    ensures Characters(q[i..]) == Characters(q)[i..]
  {
    if i > 0 {
      CharactersAt(q[1..], i - 1);
      assert q[1..][i - 1..] == q[i..];
    } else {
      assert q[0..] == q;
    }
  }

  /** Tokens with the characters of an encoding without line ends. */
  lemma {:induction false} CharactersOfEncoding(q: seq<Token>, s: seq<byte>, lc: nat)
    requires Characters(q) == Lines(s, lc, 0, [])
    ensures Encodes(q, s)
    decreases |s|
  {
    hide Quartet;
    if |s| > 0 {
      var n := if |s| < 3 then |s| else 3;
      var c, rest := Quartet(s[..n]), if |s| < 3 then [] else Lines(s[3..], lc + 4, 0, []);
      assert s[..n] == if |s| < 3 then s else s[..3];
      assert Characters(q) == c + rest;
      CharactersAt(q, 0);
      CharactersAt(q, 1);
      CharactersAt(q, 2);
      CharactersAt(q, 3);
      if |q| > 4 {
        CharactersAt(q, 4);
      }
      assert Characters(q[4..]) == rest;
      EncodingOfNothing(lc);
      CharactersOfEncoding(q[4..], s[n..], lc + 4);
    }
  }

  lemma EncodingOfNothing(lc: nat)
    ensures forall l: nat :: Lines([], l, 0, []) == []
  {
  }

  /** A string whose tokens encode something holds no invalid character. */
  lemma {:induction false} EncodingValid(white: seq<byte>, q: seq<Token>, s: seq<byte>)
    requires Encodes(q, s)
    ensures forall i :: 0 <= i < |q| ==> Decoding(white, q[i].ch) != INVALID
    decreases |q|
  {
    hide Decoding, Quartet;
    if |s| > 0 {
      var n := if |s| < 3 then |s| else 3;
      QuartetSymbols(white, s[..n]);
      EncodingValid(white, q[4..], s[n..]);
      assert forall i :: 4 <= i < |q| ==> q[i] == q[4..][i - 4];
    }
  }

  /** An invalid character becomes a token. */
  lemma {:induction false} InvalidToken(white: seq<byte>, glued: bool, t: seq<byte>, i: nat)
    requires i < |t| && Decoding(white, t[i]) == INVALID
    ensures exists j :: 0 <= j < |Tokens(white, glued, t)| && Decoding(white, Tokens(white, glued, t)[j].ch) == INVALID
    decreases |t|
  {
    hide Decoding;
    var q := Tokens(white, glued, t);
    if i == 0 {
      assert q[0].ch == t[0];
    } else {
      var g := !White(white, t[0]);
      InvalidToken(white, g, t[1..], i - 1);
      var rest := Tokens(white, g, t[1..]);
      var j :| 0 <= j < |rest| && Decoding(white, rest[j].ch) == INVALID;
      if g {
        assert q[j + 1] == rest[j];
      } else {
        assert q == rest;
      }
    }
  }

  /** White space may stand anywhere in an encoding. Its bytes come back just when they are not one more
      than a multiple of three, or the last two characters stand together; otherwise a zero is added. */
  lemma WhiteSpaceAnywhere(white: seq<byte>, t: seq<byte>, s: seq<byte>)
    requires Characters(Tokens(white, false, t)) == Lines(s, 0, 0, [])
    ensures var q := Tokens(white, false, t);
            && Decode(white, t) == Bytes(s + Surplus(q, s))
            && (Decode(white, t) == Bytes(s) <==> |s| % 3 != 1 || EndsTogether(q))
  {
    hide Decoding, Lines, Tokens, Groups, Encodes;
    var q := Tokens(white, false, t);
    CharactersOfEncoding(q, s, 0);
    DecodeEncoding(white, t, s);
    assert |s + [0]| != |s| && s + [] == s;
  }

  lemma DecodeEncoding(white: seq<byte>, t: seq<byte>, s: seq<byte>)
    requires Encodes(Tokens(white, false, t), s)
    ensures Decode(white, t) == Bytes(s + Surplus(Tokens(white, false, t), s))
  {
    hide Decoding, Lines, Tokens, Groups, Encodes;
    var q := Tokens(white, false, t);
    EncodingValid(white, q, s);
    forall i | 0 <= i < |t|
      ensures Decoding(white, t[i]) != INVALID
    {
      if Decoding(white, t[i]) == INVALID {
        InvalidToken(white, false, t, i);
        assert false;
      }
    }
    GroupsRestore(white, [], q, s);
    assert [] + s == s;
  }

  /** Decoding restores whatever was encoded, for every line length and every line end of white space. */
  lemma RoundTrip(white: seq<byte>, s: seq<byte>, cpl: int, eol: seq<byte>)
    requires AllWhite(white, eol)
    ensures Decode(white, Lines(s, 0, cpl, eol)) == Bytes(s)
  {
    hide Decoding, Lines, Tokens, Groups, Encodes;
    TokensOfLines(white, false, s, 0, cpl, eol);
    DecodeEncoding(white, Lines(s, 0, cpl, eol), s);
    assert s + [] == s;
  }

  /** An instance: a line feed between the two padding symbols of a single byte. */
  lemma SplitPadding()
    ensures Decode([10], [81, 81, PAD, PAD]) == Bytes([65])
    ensures Decode([10], [81, 81, PAD, 10, PAD]) == Bytes([65, 0])
  {
    hide Tokens, Groups, Decoding;
    TokensTogether([10]);
    TokensApart([10]);
    DecodingOf();
    GroupsOf([10], true);
    GroupsOf([10], false);
  }

  lemma DecodingOf()
    ensures Decoding([10], 81) == 16 && Decoding([10], PAD) == 0 && Decoding([10], 10) == WHITE
  {
  }

  lemma GroupsOf(w: seq<byte>, glued: bool)
    requires w == [10]
    ensures Groups(w, [], [Token(81, false), Token(81, true), Token(PAD, true), Token(PAD, glued)]) ==
            Bytes(if glued then [65] else [65, 0])
  {
    hide Decoding;
    DecodingOf();
  }

  lemma TokensTogether(w: seq<byte>)
    requires w == [10]
    ensures Tokens(w, false, [81, 81, PAD, PAD]) ==
            [Token(81, false), Token(81, true), Token(PAD, true), Token(PAD, true)]
  {
    hide Tokens;
    NoTokens(w, true);
    TokenFirst(w, true, PAD, []);
    assert [PAD] + [] == [PAD];
    TokenFirst(w, true, PAD, [PAD]);
    assert [PAD] + [PAD] == [PAD, PAD];
    TokenFirst(w, true, 81, [PAD, PAD]);
    assert [81] + [PAD, PAD] == [81, PAD, PAD];
    TokenFirst(w, false, 81, [81, PAD, PAD]);
    assert [81] + [81, PAD, PAD] == [81, 81, PAD, PAD];
  }

  lemma TokensApart(w: seq<byte>)
    requires w == [10]
    ensures Tokens(w, false, [81, 81, PAD, 10, PAD]) ==
            [Token(81, false), Token(81, true), Token(PAD, true), Token(PAD, false)]
  {
    hide Tokens;
    NoTokens(w, true);
    TokenFirst(w, false, PAD, []);
    assert [PAD] + [] == [PAD];
    WhiteSkipped(w, true, [10], [PAD]);
    assert [10] + [PAD] == [10, PAD];
    TokenFirst(w, true, PAD, [10, PAD]);
    assert [PAD] + [10, PAD] == [PAD, 10, PAD];
    TokenFirst(w, true, 81, [PAD, 10, PAD]);
    assert [81] + [PAD, 10, PAD] == [81, PAD, 10, PAD];
    TokenFirst(w, false, 81, [81, PAD, 10, PAD]);
    assert [81] + [81, PAD, 10, PAD] == [81, 81, PAD, 10, PAD];
  }

  // ----- the decoder

  /** s holds a string of n characters, and its end. */
  predicate IsString(s: array<byte>, n: nat)
    reads s
  {
    n < s.Length && s[n] == 0 && forall i :: 0 <= i < n ==> s[i] != 0
  }

  /** The lookup table. */
  method Table(white: seq<byte>) returns (b64dec: array<byte>)
    ensures b64dec.Length == 256 && forall c: byte :: b64dec[c] == Decoding(white, c)
  {
    b64dec := new byte[256](_ => INVALID);
    var c := 65;
    while c <= 90
      invariant 65 <= c <= 91 && b64dec.Length == 256
      invariant forall i: byte :: b64dec[i] == if 65 <= i < c then i - 65 else INVALID
    {
      b64dec[c] := 0 + (c - 65);
      c := c + 1;
    }
    c := 97;
    while c <= 122
      invariant 97 <= c <= 123
      invariant forall i: byte :: b64dec[i] ==
                  if 65 <= i <= 90 then i - 65 else if 97 <= i < c then 26 + (i - 97) else INVALID
    {
      b64dec[c] := 26 + (c - 97);
      c := c + 1;
    }
    c := 48;
    while c <= 57
      invariant 48 <= c <= 58
      invariant forall i: byte :: b64dec[i] ==
                  if 65 <= i <= 90 then i - 65 else if 97 <= i <= 122 then 26 + (i - 97)
                  else if 48 <= i < c then 52 + (i - 48) else INVALID
    {
      b64dec[c] := 52 + (c - 48);
      c := c + 1;
    }
    b64dec[43] := 62;
    b64dec[47] := 63;
    b64dec[61] := 0;
    var i := 0;
    while i < |white|
      invariant i <= |white| && forall c: byte :: b64dec[c] == Decoding(white[..i], c)
    {
      if b64dec[white[i]] == INVALID {
        b64dec[white[i]] := WHITE;
      }
      i := i + 1;
    }
    assert white[..|white|] == white;
  }

  /** The number of characters that are not white space, unless one is invalid. */
  method CountCharacters(s: array<byte>, b64dec: array<byte>, white: seq<byte>, ghost n: nat)
      returns (ok: bool, ns: nat)
    requires IsString(s, n) && b64dec.Length == 256 && forall c: byte :: b64dec[c] == Decoding(white, c)
    ensures ok <==> !exists i :: 0 <= i < n && Decoding(white, s[..n][i]) == INVALID
    ensures ok ==> ns == |Tokens(white, false, s[..n])|
  {
    hide Decoding;
    ns := 0;
    var t := 0;
    ghost var S, glued := s[..n], false;
    assert S[0..] == S;
    while s[t] != 0
      invariant t <= n && S == s[..n] && ns + |Tokens(white, glued, S[t..])| == |Tokens(white, false, S)|
      invariant forall i :: 0 <= i < t ==> Decoding(white, S[i]) != INVALID
      decreases n - t
    {
      assert S[t..][0] == s[t] && S[t..][1..] == S[t + 1..];
      if b64dec[s[t]] == INVALID {
        assert Decoding(white, S[t]) == INVALID;
        return false, ns;
      } else if b64dec[s[t]] == WHITE {
        glued := false;
      } else {
        ns := ns + 1;
        glued := true;
      }
      t := t + 1;
    }
    ok := true;
  }

  /** Skips white space and reads a character. */
  method NextCharacter(s: array<byte>, i: nat, b64dec: array<byte>, white: seq<byte>, ghost S: seq<byte>,
                       ghost glued: bool)
      returns (v: byte, next: nat, ghost token: Token)
    requires i <= |S| < s.Length && S == s[..|S|] && b64dec.Length == 256
    requires forall c: byte :: b64dec[c] == Decoding(white, c)
    requires |Tokens(white, glued, S[i..])| > 0
    ensures i < next <= |S| && v == Decoding(white, S[next - 1]) != WHITE
    ensures token == Token(S[next - 1], if next == i + 1 then glued else false)
    ensures Tokens(white, glued, S[i..]) == [token] + Tokens(white, true, S[next..])
    ensures next > i + 1 ==> White(white, S[next - 2])
  {
    hide Decoding;
    ghost var all, g := Tokens(white, glued, S[i..]), glued;
    next := i;
    v := b64dec[s[next]];
    next := next + 1;
    while v == WHITE
      invariant i < next <= |S| && v == Decoding(white, S[next - 1])
      invariant g == if next == i + 1 then glued else false
      invariant Tokens(white, g, S[next - 1..]) == all
      invariant next > i + 1 ==> White(white, S[next - 2])
      decreases |S| - next
    {
      assert S[next - 1..][0] == S[next - 1] && S[next - 1..][1..] == S[next..];
      g := false;
      v := b64dec[s[next]];
      next := next + 1;
    }
    assert S[next - 1..][0] == S[next - 1] && S[next - 1..][1..] == S[next..];
    token := Token(S[next - 1], g);
  }

  /** The next four characters. */
  method NextGroup(s: array<byte>, i: nat, b64dec: array<byte>, white: seq<byte>, ghost S: seq<byte>, ghost glued: bool)
      returns (a: byte, b: byte, c: byte, d: byte, next: nat, ghost q: seq<Token>)
    requires i <= |S| < s.Length && S == s[..|S|] && b64dec.Length == 256
    requires forall c: byte :: b64dec[c] == Decoding(white, c)
    requires |Tokens(white, glued, S[i..])| >= 4
    ensures i + 4 <= next <= |S| && |q| == 4
    ensures Tokens(white, glued, S[i..]) == q + Tokens(white, true, S[next..])
    ensures a == Decoding(white, q[0].ch) && b == Decoding(white, q[1].ch) && c == Decoding(white, q[2].ch)
    ensures d == Decoding(white, q[3].ch) && q[3].ch == S[next - 1]
    ensures q[2].ch == PAD && q[3].glued <==> S[next - 2] == PAD
  {
    hide Decoding, Tokens;
    ghost var w, x, y, z;
    PadIsNotWhite(white);
    a, next, w := NextCharacter(s, i, b64dec, white, S, glued);
    b, next, x := NextCharacter(s, next, b64dec, white, S, true);
    c, next, y := NextCharacter(s, next, b64dec, white, S, true);
    d, next, z := NextCharacter(s, next, b64dec, white, S, true);
    q := [w, x, y, z];
  }

  lemma PadIsNotWhite(white: seq<byte>)
    ensures Decoding(white, PAD) == 0
  {
  }

  method B64Decode(s: array<byte>, white: seq<byte>, ghost n: nat) returns (rc: int, t: array<byte>, len: nat)
    requires IsString(s, n)
    ensures len <= t.Length
    ensures rc == 0 ==> Decode(white, s[..n]) == Bytes(t[..len])
    ensures rc != 0 ==> Decode(white, s[..n]) == Failure(rc)
    ensures rc == 3 <==> exists i :: 0 <= i < n && Decoding(white, s[i]) == 0x80
    ensures rc == 2 <==> rc != 3 && |Tokens(white, false, s[..n])| % 4 != 0
    ensures 0 <= rc <= 3
  {
    hide Decoding, Tokens, Groups;
    ghost var S := s[..n];
    t, len := new byte[0], 0;
    var b64dec := Table(white);
    var ok, ns := CountCharacters(s, b64dec, white, n);
    if !ok {
      return 3, t, 0;
    }
    if ns % 4 != 0 {
      return 2, t, 0;
    }
    t := new byte[ns / 4 * 3 + 1];
    rc, len := DecodeGroups(s, b64dec, white, S, ns, t);
  }

  /** The loop over the groups of four characters. */
  method DecodeGroups(s: array<byte>, b64dec: array<byte>, white: seq<byte>, ghost S: seq<byte>, characters: nat,
                      t: array<byte>)
      returns (rc: int, len: nat)
    requires |S| < s.Length && S == s[..|S|]
    requires b64dec.Length == 256 && forall c: byte :: b64dec[c] == Decoding(white, c)
    requires characters == |Tokens(white, false, S)| && characters % 4 == 0 && t.Length == characters / 4 * 3 + 1
    requires t != s && t != b64dec
    modifies t
    ensures len <= t.Length && (rc == 0 || rc == 1)
    ensures Groups(white, [], Tokens(white, false, S)) == if rc == 0 then Bytes(t[..len]) else Failure(rc)
  {
    hide Decoding, Tokens, Groups;
    ghost var all, glued := Groups(white, [], Tokens(white, false, S)), false;
    var i: nat, ns: nat := 0, characters;
    len := 0;
    assert S[0..] == S && t[..0] == [];
    while ns > 0
      invariant i <= |S| && S == s[..|S|] && ns == |Tokens(white, glued, S[i..])| && ns % 4 == 0
      invariant len + ns / 4 * 3 < t.Length
      invariant Groups(white, t[..len], Tokens(white, glued, S[i..])) == all
    {
      ghost var rest, acc := Tokens(white, glued, S[i..]), t[..len];
      var a, b, c, d, stop;
      ghost var q;
      a, b, c, d, i, q := NextGroup(s, i, b64dec, white, S, glued);
      glued := true;
      FirstFour(q, Tokens(white, true, S[i..]));
      GroupsStep(white, acc, rest);
      ns := ns - 4;
      len, stop := PutGroup(t, len, a, b, c, d, s[i - 2] == PAD, s[i - 1] == PAD);
      if stop {
        break;
      }
    }
    if ns == 0 {
      NoGroups(white, t[..len]);
    }
    rc := if ns != 0 then 1 else 0;
  }

  lemma FirstFour(q: seq<Token>, rest: seq<Token>)
    requires |q| == 4
    ensures (q + rest)[..4] == q && (q + rest)[4..] == rest
  {
  }

  lemma NoGroups(white: seq<byte>, acc: seq<byte>)
    ensures Groups(white, acc, []) == Bytes(acc)
  {
  }

  /** The bytes of a group. */
  function GroupBytes(a: int, b: int, c: int, d: int, third: bool, fourth: bool): seq<byte> {
    var one := [(a * 4 + b / 16) % 256];
    var two := one + [(b * 16 + c / 4) % 256];
    if third then one else if fourth then two else two + [(c * 64 + d) % 256]
  }

  lemma GroupsStep(white: seq<byte>, acc: seq<byte>, q: seq<Token>)
    requires |q| >= 4
    ensures var a, b := Decoding(white, q[0].ch), Decoding(white, q[1].ch);
            var c, d := Decoding(white, q[2].ch), Decoding(white, q[3].ch);
            var third, fourth := q[2].ch == PAD && q[3].glued, q[3].ch == PAD;
            var bytes := acc + GroupBytes(a, b, c, d, third, fourth);
            Groups(white, acc, q) ==
            if third || fourth then (if |q| == 4 then Bytes(bytes) else Failure(1)) else Groups(white, bytes, q[4..])
  {
    hide Decoding;
    var a: int, b: int := Decoding(white, q[0].ch), Decoding(white, q[1].ch);
    var c: int, d: int := Decoding(white, q[2].ch), Decoding(white, q[3].ch);
    var one: byte, two: byte, three: byte := (a * 4 + b / 16) % 256, (b * 16 + c / 4) % 256, (c * 64 + d) % 256;
    assert acc + [one] + [two] == acc + ([one] + [two]);
    assert acc + [one] + [two] + [three] == acc + ([one] + [two] + [three]);
  }

  /** Three bytes are the 24 bits that four symbols make, and a padded group has the first ones. */
  lemma GroupNumber(a: int, b: int, c: int, d: int)
    requires 0 <= a < 64 && 0 <= b < 64 && 0 <= c < 64 && 0 <= d < 64
    ensures var g := GroupBytes(a, b, c, d, false, false);
            && |g| == 3
            && g[0] as int * 65536 + g[1] as int * 256 + g[2] as int == a * 262144 + b * 4096 + c * 64 + d
            && GroupBytes(a, b, c, d, false, true) == g[..2]
            && GroupBytes(a, b, c, d, true, true) == GroupBytes(a, b, c, d, true, false) == g[..1]
  {
    DivModUnique(b * 16 + c / 4, 256, b / 16, b % 16 * 16 + c / 4);
    DivModUnique(c * 64 + d, 256, c / 4, c % 4 * 64 + d);
    DivModUnique(a * 4 + b / 16, 256, 0, a * 4 + b / 16);
    var g := GroupBytes(a, b, c, d, false, false);
    assert g == [a * 4 + b / 16, b % 16 * 16 + c / 4, c % 4 * 64 + d];
  }

  /** Padding in front of the last group, and nothing else, makes the groups fail. */
  lemma {:induction false} PaddingInside(white: seq<byte>, acc: seq<byte>, q: seq<Token>)
    requires |q| % 4 == 0
    ensures Groups(white, acc, q).Failure? <==>
            exists i: nat :: i % 4 == 0 && i + 4 < |q| && Padded(q, i)
    ensures Groups(white, acc, q).Failure? ==> Groups(white, acc, q).code == 1
    decreases |q|
  {
    hide Decoding, Groups, GroupBytes;
    if |q| == 0 {
      NoGroups(white, acc);
      assert q == [];
    } else {
      GroupsStep(white, acc, q);
      assert Padded(q, 0) <==> q[3].ch == PAD || (q[2].ch == PAD && q[3].glued);
      var a, b := Decoding(white, q[0].ch), Decoding(white, q[1].ch);
      var c, d := Decoding(white, q[2].ch), Decoding(white, q[3].ch);
      PaddingInside(white, acc + GroupBytes(a, b, c, d, false, false), q[4..]);
      if i: nat :| i % 4 == 0 && i + 4 < |q[4..]| && Padded(q[4..], i) {
        assert Padded(q, i + 4);
      }
      if i: nat :| i % 4 == 0 && i + 4 < |q| && Padded(q, i) {
        assert i == 0 || Padded(q[4..], i - 4);
      }
    }
  }

  method PutGroup(t: array<byte>, len: nat, a: byte, b: byte, c: byte, d: byte, third: bool, fourth: bool)
      returns (len': nat, stop: bool)
    requires len + 3 < t.Length
    modifies t
    ensures len <= len' <= len + 3 && (len' == len + 3 <==> !stop)
    ensures t[..len'] == old(t[..len]) + GroupBytes(a, b, c, d, third, fourth)
    ensures stop <==> third || fourth
  {
    len' := len;
    t[len'] := (a * 4 + b / 16) % 256;
    len' := len' + 1;
    if third {
      return len', true;
    }
    t[len'] := (b * 16 + c / 4) % 256;
    len' := len' + 1;
    if fourth {
      return len', true;
    }
    t[len'] := (c * 64 + d) % 256;
    len' := len' + 1;
    stop := false;
  }

  /** Decoding what the encoder has returned succeeds and gives the same bytes, for every line length and every
      line end that is a string of white space. */
  method EncodeAndDecode(data: array<byte>, size: nat, cpl: int, eol: seq<byte>, white: seq<byte>)
      returns (rc: int, back: array<byte>, len: nat)
    requires size <= data.Length && (size == 0 ==> exists i :: 0 <= i < data.Length && data[i] == 0)
    requires AllWhite(white, eol) && 0 !in eol
    ensures rc == 0 && len <= back.Length
    ensures back[..len] == if size > 0 then data[..size] else StringIn(data[..])
  {
    hide Decoding, Lines, Tokens, Groups, Capacity;
    ghost var s := if size > 0 then data[..size] else StringIn(data[..]);
    var t := B64Encode(data, size, cpl, eol);
    RoundTrip(white, s, cpl, eol);
    rc, back, len := B64Decode(t, white, |Lines(s, 0, cpl, eol)|);
  }
}
