/** Numbers with their length (mpnumber.h), and powers with a workspace of their own. */
module MpNumbers {
  import opened Arith
  import opened Words
  import opened Barrett
  import opened BarrettArith
  import opened Power

  /** The size words at the start of a buffer. */
  datatype MpNumber = MpNumber(size: nat, data: array<mpw>)
  {
    predicate Readable() {
      0 < size <= data.Length
    }

    ghost function Value(): nat
      requires Readable()
      reads data
    {
      Val(data[0..size])
    }
  }

  /** What exponentiation leaves in a buffer that held left: nothing is written for a zero exponent. */
  ghost function PowerOver(left: nat, x: nat, e: nat, m: nat): (v: nat)
    requires m > 0
  {
    RemBounds(Pow(x, e), m);
    if e > 0 then Rem(Pow(x, e), m) else left
  }

  /** x to the power e; a zero exponent leaves the result as it is. */
  method PowMod(b: MpBarrett, x: MpNumber, e: MpNumber, result: array<mpw>)
    requires b.Valid() && x.Readable() && e.Readable() && x.size <= b.size
    requires result.Length >= b.size && result != b.modl && result != e.data
    modifies result
    ensures b.Valid()
    ensures old(e.Value()) > 0 ==> IsPower(Val(result[0..b.size]), old(x.Value()), old(e.Value()), b.Modulus())
    ensures Val(result[0..b.size]) ==
            PowerOver(old(Val(result[0..b.size])), old(x.Value()), old(e.Value()), b.Modulus())
  {
    hide Val, P, Rem, Pow;
    var wksp, temp := new mpw[2 * b.size + 2], new mpw[2 * b.size];
    MpBPowMod(b, x.size, x.data, 0, e.size, e.data, 0, result, wksp, temp);
  }

  method MulMod(b: MpBarrett, x: MpNumber, y: MpNumber, result: array<mpw>)
    requires b.Valid() && x.Readable() && y.Readable() && x.size <= b.size && y.size <= b.size
    requires result.Length >= b.size && result != b.modl
    modifies result
    ensures b.Valid()
    ensures Val(result[0..b.size]) == Rem(old(x.Value()) * old(y.Value()), b.Modulus())
  {
    hide Val, P, Rem;
    var wksp, temp := new mpw[2 * b.size + 2], new mpw[2 * b.size];
    MpBMulMod(b, x.size, x.data, 0, y.size, y.data, 0, result, 0, wksp, temp);
  }

  method AddMod(b: MpBarrett, x: MpNumber, y: MpNumber, result: array<mpw>)
    requires b.Valid() && x.Readable() && y.Readable() && x.size <= b.size && y.size <= b.size
    requires result.Length >= b.size && result != b.modl
    modifies result
    ensures b.Valid()
    ensures Val(result[0..b.size]) == Rem(old(x.Value()) + old(y.Value()), b.Modulus())
  {
    hide Val, P, Rem;
    var wksp, temp := new mpw[2 * b.size + 2], new mpw[2 * b.size];
    MpBAddMod(b, x.size, x.data, 0, y.size, y.data, 0, result, 0, wksp, temp);
  }

  method SubMod(b: MpBarrett, x: MpNumber, y: MpNumber, result: array<mpw>)
    requires b.Valid() && x.Readable() && y.Readable() && x.size <= b.size && y.size <= b.size
    requires result.Length >= b.size && result != b.modl
    modifies result
    ensures b.Valid()
    ensures Val(result[0..b.size]) == Rem(old(x.Value()) - old(y.Value()), b.Modulus())
  {
    hide Val, P, Rem;
    var wksp, temp := new mpw[2 * b.size + 2], new mpw[2 * b.size];
    MpBSubMod(b, x.size, x.data, 0, y.size, y.data, 0, result, 0, wksp, temp);
  }
}
