/**
  The branches of mpsetmul, mpaddmul and mpaddsqrtrc for machines without a double word
  type: products are put together from four products of half words, and every overflow
  of the word type is noticed by comparing.
 */
module MpHalfWord {
  import opened Arith
  import opened Words

  const H: int := 0x1_0000_0000

  /** A product with its low and its high word. */
  datatype Double = Double(lo: mpw, hi: mpw)

  function Of(d: Double): int {
    d.lo as int + d.hi * W
  }

  function Low(x: mpw): (r: mpw)
    ensures 0 <= r < H
  {
    x as int % H
  }

  function High(x: mpw): (r: mpw)
    ensures 0 <= r < H
    ensures x as int == r * H + Low(x) as int
  {
    x as int / H
  }

  /** a + b in the word type. */
  function Wrap(a: int, b: int): (r: mpw) {
    (a + b) % W
  }

  /** a * b of half words, in the word type. */
  function Times(a: mpw, b: mpw): (r: mpw) {
    (a as int * b as int) % W
  }

  /** Adds a cross product at the middle: its lower half to the low word, the rest and the carry to the high word. */
  function AddCross(d: Double, temp: mpw): Double {
    var lo := Wrap(d.lo, temp as int * H % W);
    Double(lo, Wrap(d.hi, temp as int / H + Bit(d.lo > lo)))
  }

  /** The double word product of x and y. */
  function FourProducts(x: mpw, y: mpw): Double {
    var d := Double(Times(Low(x), Low(y)), Times(High(x), High(y)));
    AddCross(AddCross(d, Times(High(x), Low(y))), Times(Low(x), High(y)))
  }

  /** The word and the carry that mpsetmul produces. */
  function SetMulStep(x: mpw, y: mpw, carry: mpw): Double {
    AddWord(FourProducts(x, y), carry)
  }

  /** The word and the carry that mpaddmul produces. */
  function AddMulStep(x: mpw, y: mpw, carry: mpw, r: mpw): Double {
    var d := FourProducts(x, y);
    var e := AddWord(d, carry);
    var c := Bit(d.hi > e.hi);
    var word := Wrap(e.lo, r);
    Double(word, Wrap(c, e.hi as int + Bit(e.lo > word)))
  }

  /** The double word square of x. */
  function ThreeProducts(x: mpw): Double {
    var temp := Times(High(x), Low(x));
    AddCross(AddCross(Double(Times(Low(x), Low(x)), Times(High(x), High(x))), temp), temp)
  }

  /** Adds a word to the low word, and the carry to the high word. */
  function AddWord(d: Double, c: mpw): Double {
    var lo := Wrap(d.lo, c);
    Double(lo, Wrap(d.hi, Bit(d.lo > lo)))
  }

  /** The two words and the carry that mpaddsqrtrc produces. */
  function AddSqrStep(x: mpw, carry: mpw, r1: mpw, r0: mpw): (r: (mpw, mpw, int)) {
    var d := AddWord(ThreeProducts(x), carry);
    var e := AddWord(d, r1);
    var c := Bit(d.hi > e.hi);
    var word := Wrap(e.hi, r0);
    (e.lo, word, c + Bit(e.hi > word))
  }

  lemma TimesExact(a: mpw, b: mpw)
    requires a < H && b < H
    ensures Times(a, b) as int == a as int * b as int <= (H - 1) * (H - 1)
  {
    MulBound(a, b, H - 1, H - 1);
    DivModUnique(a as int * b as int, W, 0, a as int * b as int);
  }

  lemma AddCrossExact(d: Double, temp: mpw)
    requires Of(d) + temp * H < W * W
    ensures Of(AddCross(d, temp)) == Of(d) + temp * H
  {
    var t: int := temp;
    var t1, t0 := t / H, t % H;
    assert t == t1 * H + t0;
    DivModUnique(t * H, W, t1, t0 * H);
    var lo := Wrap(d.lo, t0 * H);
    assert lo as int == d.lo as int + t0 * H - W * Bit(d.lo > lo);
    var hi: int := d.hi as int + t1 + Bit(d.lo > lo);
    assert hi < W;
    DivModUnique(hi, W, 0, hi);
  }

  /** The half words put the product together exactly. */
  lemma FourProductsExact(x: mpw, y: mpw)
    ensures Of(FourProducts(x, y)) == x as int * y as int
  {
    var x1: int, x0: int, y1: int, y0: int := High(x), Low(x), High(y), Low(y);
    TimesExact(Low(x), Low(y));
    TimesExact(High(x), High(y));
    TimesExact(High(x), Low(y));
    TimesExact(Low(x), High(y));
    assert (x1 * H + x0) * (y1 * H + y0) == x1 * y1 * W + (x1 * y0) * H + (x0 * y1) * H + x0 * y0;
    var d := Double(Times(Low(x), Low(y)), Times(High(x), High(y)));
    AddCrossExact(d, Times(High(x), Low(y)));
    AddCrossExact(AddCross(d, Times(High(x), Low(y))), Times(Low(x), High(y)));
  }

  /** Adding a word to the low word, noticing the overflow by comparing. */
  lemma AddWordExact(d: Double, c: mpw)
    requires Of(d) + c as int < W * W
    ensures Of(AddWord(d, c)) == Of(d) + c as int
    ensures AddWord(d, c).hi >= d.hi
  {
    var lo := Wrap(d.lo, c);
    assert lo as int == d.lo as int + c as int - W * Bit(d.lo > lo);
    var hi: int := d.hi as int + Bit(d.lo > lo);
    assert hi < W;
    DivModUnique(hi, W, 0, hi);
  }

  lemma Unpack(d: Double, n: int)
    requires Of(d) == n
    ensures 0 <= n < W * W && d == Double(Lo(n), Hi(n))
  {
    DivModUnique(n, W, d.hi, d.lo);
  }

  /** The half-word branch of mpsetmul computes the word and the carry of the double-word branch. */
  lemma SetMulBranchesAgree(x: mpw, y: mpw, carry: mpw)
    ensures var n := x as int * y as int + carry as int;
            0 <= n < W * W && SetMulStep(x, y, carry) == Double(Lo(n), Hi(n))
  {
    var d := FourProducts(x, y);
    FourProductsExact(x, y);
    WordProduct(x, y);
    AddWordExact(d, carry);
    Unpack(SetMulStep(x, y, carry), x as int * y as int + carry as int);
  }

  /** The half-word branch of mpaddmul computes the word and the carry of the double-word branch. */
  lemma AddMulBranchesAgree(x: mpw, y: mpw, carry: mpw, r: mpw)
    ensures var n := x as int * y as int + carry as int + r as int;
            0 <= n < W * W && AddMulStep(x, y, carry, r) == Double(Lo(n), Hi(n))
  {
    var d := FourProducts(x, y);
    FourProductsExact(x, y);
    WordProduct(x, y);
    AddWordExact(d, carry);
    var e := AddWord(d, carry);
    AddWordExact(e, r);
    Unpack(AddMulStep(x, y, carry, r), x as int * y as int + carry as int + r as int);
  }

  /** The half-word branch of mpaddsqrtrc computes the words and the carry of the double-word branch. */
  lemma AddSqrBranchesAgree(x: mpw, carry: mpw, r1: mpw, r0: mpw)
    ensures var n := x as int * x as int + carry as int + r1 as int;
            0 <= n < W * W &&
            var m := Hi(n) as int + r0 as int;
            0 <= m < W * W && AddSqrStep(x, carry, r1, r0) == (Lo(n), Lo(m), Hi(m) as int)
  {
    var n := x as int * x as int + carry as int + r1 as int;
    ThreeProductsExact(x);
    WordProduct(x, x);
    var d := ThreeProducts(x);
    AddWordExact(d, carry);
    AddWordExact(AddWord(d, carry), r1);
    var e := AddWord(AddWord(d, carry), r1);
    Unpack(e, n);
    LastWord(e.hi, r0);
  }

  lemma LastWord(h: mpw, r: mpw)
    ensures var m := h as int + r as int;
            var word := Wrap(h, r);
            word == Lo(m) && Bit(h > word) == Hi(m) as int
  {
    var m := h as int + r as int;
    var word := Wrap(h, r);
    assert word as int == m - W * Bit(h > word);
    DivModUnique(m, W, Bit(h > word), word);
  }

  lemma ThreeProductsExact(x: mpw)
    ensures Of(ThreeProducts(x)) == x as int * x as int
  {
    assert Low(x) as int * High(x) as int == High(x) as int * Low(x) as int;
    assert ThreeProducts(x) == FourProducts(x, x);
    FourProductsExact(x, x);
  }
}
