/** Reed-Solomon error correction of the QR Code generator: field multiplication, generator
    polynomial and remainder as the generator computes them in place, and what they mean as
    polynomials over GF(2^8). Coefficients run from the highest power to the lowest. */
module ReedSolomon {
  import opened GaloisField
  import opened Wrappers

  // ---------- Multiplication ----------

  /** One doubling step on the wide accumulator. */
  function WideDouble(z: bv16): bv16 { (z << 1) ^ ((z >> 7) * 0x11D) }

  /** Adds `x` to the wide accumulator if bit i of y is set. */
  function WideAdd(z: bv16, y: bv8, i: nat, x: bv8): bv16
    requires i < 8
  {
    z ^ (((y >> i) & 1) as bv16 * x as bv16)
  }

  function ShiftRight(y: bv8, i: nat): bv8
    requires i <= 8
  {
    y >> i
  }

  predicate Narrow(z: bv16, v: bv8) { z == v as bv16 }

  lemma WideDoubleNarrow(z: bv16, v: bv8)
    requires Narrow(z, v)
    ensures Narrow(WideDouble(z), Double(v))
  {}

  lemma WideAddNarrow(z: bv16, v: bv8, y: bv8, i: nat, x: bv8)
    requires i < 8 && Narrow(z, v)
    ensures Narrow(WideAdd(z, y, i, x), Add(v, Select(Last(ShiftRight(y, i)), x)))
  {
    var c := y >> i;
    assert (v ^ Select(Last(c), x)) as bv16 == (v as bv16) ^ ((c & 1) as bv16 * x as bv16) by { WideSelect(v, c, x); }
  }

  lemma WideSelect(v: bv8, c: bv8, x: bv8)
    ensures (v ^ Select(Last(c), x)) as bv16 == (v as bv16) ^ ((c & 1) as bv16 * x as bv16)
  {}

  lemma ShiftStep(y: bv8, i: nat)
    requires i < 8
    ensures Half(ShiftRight(y, i)) == ShiftRight(y, i + 1)
  {
    assert i == 0 || i == 1 || i == 2 || i == 3 || i == 4 || i == 5 || i == 6 || i == 7;
  }

  lemma ShiftEnds(y: bv8)
    ensures ShiftRight(y, 0) == y && ShiftRight(y, 8) == 0 && Narrow(0, 0)
  {}

  method Multiply(x: bv8, y: bv8) returns (product: bv8)
    ensures product == Mul(x, y)
  {
    hide Mul, Double, Add, Select, Half, Last, WideDouble, WideAdd, ShiftRight, Narrow;
    var z: bv16 := 0;
    ShiftEnds(y);
    MulZero(x);
    for i := 8 downto 0
      invariant Narrow(z, Mul(x, ShiftRight(y, i)))
    {
      ghost var v := Mul(x, ShiftRight(y, i + 1));
      WideDoubleNarrow(z, v);
      z := WideDouble(z);
      WideAddNarrow(z, Double(v), y, i, x);
      z := WideAdd(z, y, i, x);
      ShiftStep(y, i);
      MulUnfold(x, ShiftRight(y, i));
    }
    NarrowValue(z, Mul(x, y));
    product := z as bv8;
  }

  lemma NarrowValue(z: bv16, v: bv8)
    requires Narrow(z, v)
    ensures z < 256 && z as bv8 == v
  {}

  // ---------- Polynomials ----------

  /** The value of polynomial p at x. */
  function Eval(p: seq<bv8>, x: bv8): bv8 {
    if p == [] then 0 else Add(Mul(Eval(p[..|p| - 1], x), x), p[|p| - 1])
  }

  function Sum(p: seq<bv8>, q: seq<bv8>): (s: seq<bv8>)
    requires |p| == |q|
    ensures |s| == |p|
  {
    seq(|p|, i requires 0 <= i < |p| => Add(p[i], q[i]))
  }

  function Scale(p: seq<bv8>, f: bv8): (s: seq<bv8>)
    ensures |s| == |p|
  {
    seq(|p|, i requires 0 <= i < |p| => Mul(p[i], f))
  }

  function Zeros(n: nat): (s: seq<bv8>)
    ensures |s| == n
  {
    seq(n, i => 0)
  }

  lemma {:induction false} EvalConcat(p: seq<bv8>, q: seq<bv8>, x: bv8)
    ensures Eval(p + q, x) == Add(Mul(Eval(p, x), Pow(x, |q|)), Eval(q, x))
  {
    hide Mul, Add;
    var P := Eval(p, x);
    if q == [] {
      assert p + q == p;
      MulOneRight(P);
      AddZero(P);
    } else {
      var q', c := q[..|q| - 1], q[|q| - 1];
      var Q := Eval(q', x);
      assert (p + q)[..|p + q| - 1] == p + q';
      EvalConcat(p, q', x);
      MulLinearLeft(Mul(P, Pow(x, |q'|)), Q, x);
      MulAssoc(P, Pow(x, |q'|), x);
      AddAssoc(Mul(P, Pow(x, |q|)), Mul(Q, x), c);
    }
  }

  lemma {:induction false} EvalSum(p: seq<bv8>, q: seq<bv8>, x: bv8)
    requires |p| == |q|
    ensures Eval(Sum(p, q), x) == Add(Eval(p, x), Eval(q, x))
  {
    hide Mul, Add;
    if p == [] {
      AddZero(0);
    } else {
      var p', q' := p[..|p| - 1], q[..|q| - 1];
      EvalSum(p', q', x);
      assert Sum(p, q)[..|p| - 1] == Sum(p', q');
      MulLinearLeft(Eval(p', x), Eval(q', x), x);
      AddSwap(Mul(Eval(p', x), x), Mul(Eval(q', x), x), p[|p| - 1], q[|q| - 1]);
    }
  }

  lemma {:induction false} EvalScale(p: seq<bv8>, f: bv8, x: bv8)
    ensures Eval(Scale(p, f), x) == Mul(Eval(p, x), f)
  {
    hide Mul, Add;
    if p == [] {
      MulZero(f);
    } else {
      var p', c := p[..|p| - 1], p[|p| - 1];
      EvalScale(p', f, x);
      assert Scale(p, f)[..|p| - 1] == Scale(p', f);
      var v := Eval(p', x);
      MulAssoc(v, f, x);
      MulComm(f, x);
      MulAssoc(v, x, f);
      MulLinearLeft(Mul(v, x), c, f);
    }
  }

  lemma {:induction false} EvalZeros(n: nat, x: bv8)
    ensures Eval(Zeros(n), x) == 0
  {
    hide Mul, Add;
    if n > 0 {
      EvalZeros(n - 1, x);
      assert Zeros(n)[..n - 1] == Zeros(n - 1);
      MulZero(x);
      AddZero(0);
    }
  }

  // ---------- The generator polynomial ----------

  /** The coefficients of p(x) * (x - r). */
  function TimesRoot(p: seq<bv8>, r: bv8): (q: seq<bv8>)
    ensures |q| == |p| + 1
  {
    Sum(p + [0], [0] + Scale(p, r))
  }

  /** (x - 2^0) * (x - 2^1) * ... * (x - 2^(degree-1)), with its leading 1. */
  function Generator(degree: nat): (p: seq<bv8>)
    ensures |p| == degree + 1
  {
    if degree == 0 then [1] else TimesRoot(Generator(degree - 1), Pow(2, degree - 1))
  }

  /** The value of that product at x, factor by factor. */
  function RootProduct(degree: nat, x: bv8): bv8 {
    if degree == 0 then 1 else Mul(RootProduct(degree - 1, x), Add(x, Pow(2, degree - 1)))
  }

  lemma EvalTimesRoot(p: seq<bv8>, r: bv8, x: bv8)
    ensures Eval(TimesRoot(p, r), x) == Mul(Eval(p, x), Add(x, r))
  {
    hide Mul, Add;
    EvalSum(p + [0], [0] + Scale(p, r), x);
    assert (p + [0])[..|p|] == p;
    EvalConcat([0], Scale(p, r), x);
    EvalScale(p, r, x);
    assert [0][..0] == [];
    var v := Eval(p, x);
    AddZero(Mul(v, x));
    AddZero(Mul(v, r));
    MulZero(x);
    AddZero(0);
    MulZero(Pow(x, |p|));
    MulLinearRight(v, x, r);
  }

  /** The generator is the product of its linear factors. */
  lemma {:induction false} GeneratorIsProduct(degree: nat, x: bv8)
    ensures Eval(Generator(degree), x) == RootProduct(degree, x)
  {
    hide Mul, Add;
    if degree == 0 {
      assert [1][..0] == [];
      MulZero(x);
      AddZero(1);
    } else {
      GeneratorIsProduct(degree - 1, x);
      EvalTimesRoot(Generator(degree - 1), Pow(2, degree - 1), x);
    }
  }

  ghost predicate IsRoot(degree: nat, x: bv8) {
    exists i: nat :: i < degree && Pow(2, i) == x
  }

  lemma {:induction false} RootProductZero(degree: nat, x: bv8)
    ensures RootProduct(degree, x) == 0 <==> IsRoot(degree, x)
  {
    hide Mul, Add;
    if degree > 0 {
      RootProductZero(degree - 1, x);
      var r := Pow(2, degree - 1);
      MulCancel(RootProduct(degree - 1, x), Add(x, r));
      AddCancel(x, r);
      if IsRoot(degree, x) {
        var i: nat :| i < degree && Pow(2, i) == x;
        assert i < degree - 1 ==> IsRoot(degree - 1, x);
      }
    }
  }

  /** The roots of the generator are exactly 2^0 .. 2^(degree-1). */
  lemma GeneratorRoots(degree: nat, x: bv8)
    ensures Eval(Generator(degree), x) == 0 <==> IsRoot(degree, x)
  {
    hide *;
    GeneratorIsProduct(degree, x);
    RootProductZero(degree, x);
  }

  lemma {:induction false} GeneratorMonic(degree: nat)
    ensures Generator(degree)[0] == 1
  {
    hide Mul, Add;
    if degree > 0 {
      GeneratorMonic(degree - 1);
      AddZero(1);
    }
  }

  /** The coefficient of x^k. */
  function Coefficient(p: seq<bv8>, k: nat): bv8 {
    if k < |p| then p[|p| - 1 - k] else 0
  }

  lemma TimesRootCoefficient(p: seq<bv8>, r: bv8, k: nat)
    ensures Coefficient(TimesRoot(p, r), k)
         == Add(Mul(Coefficient(p, k), r), if k > 0 then Coefficient(p, k - 1) else 0)
  {
    hide Mul, Add;
    MulZero(r);
    AddZero(0);
    if k <= |p| {
      AddComm((p + [0])[|p| - k], ([0] + Scale(p, r))[|p| - k]);
    }
  }

  lemma GeneratorStep(i: nat, k: nat)
    ensures Coefficient(Generator(i + 1), k)
         == Add(Mul(Coefficient(Generator(i), k), Pow(2, i)), if k > 0 then Coefficient(Generator(i), k - 1) else 0)
  {
    hide Mul, Add, Coefficient, TimesRoot, Pow;
    TimesRootCoefficient(Generator(i), Pow(2, i), k);
  }

  lemma GeneratorEnds(degree: nat)
    ensures Coefficient(Generator(0), 0) == 1 && forall k: nat :: k > 0 ==> Coefficient(Generator(0), k) == 0
    ensures forall j :: 0 <= j < degree ==> Coefficient(Generator(degree), degree - 1 - j) == Generator(degree)[1..][j]
  {
    hide Mul, Add;
  }

  /** Computes the generator polynomial without its leading term, in place. */
  method ComputeDivisor(degree: int) returns (r: Option<seq<bv8>>)
    ensures r == if 1 <= degree <= 255 then Some(Generator(degree)[1..]) else None
  {
    hide Mul, Add, Coefficient, TimesRoot, Generator;
    if degree < 1 || degree > 255 {
      return None;
    }
    GeneratorEnds(degree);
    var result := new bv8[degree](_ => 0);
    result[degree - 1] := 1;
    var root: bv8 := 1;
    for i := 0 to degree
      invariant root == Pow(2, i)
      invariant forall j :: 0 <= j < degree ==> result[j] == Coefficient(Generator(i), degree - 1 - j)
    {
      for j := 0 to degree
        invariant forall k :: 0 <= k < j ==> result[k] == Coefficient(Generator(i + 1), degree - 1 - k)
        invariant forall k :: j <= k < degree ==> result[k] == Coefficient(Generator(i), degree - 1 - k)
      {
        GeneratorStep(i, degree - 1 - j);
        var product := Multiply(result[j], root);
        result[j] := product;
        AddZero(product);
        if j + 1 < degree {
          result[j] := Add(result[j], result[j + 1]);
        }
      }
      root := Multiply(root, 0x02);
    }
    assert result[..] == Generator(degree)[1..];
    r := Some(result[..]);
  }

  // ---------- The remainder ----------

  function Shift(r: seq<bv8>): (s: seq<bv8>)
    requires r != []
    ensures |s| == |r|
  {
    r[1..] + [0]
  }

  /** One step of the division: the data byte b joins the remainder r. */
  function DivideByte(r: seq<bv8>, divisor: seq<bv8>, b: bv8): (s: seq<bv8>)
    requires |r| == |divisor| > 0
    ensures |s| == |divisor|
  {
    Sum(Shift(r), Scale(divisor, Add(b, r[0])))
  }

  /** The remainder of data * x^|divisor| by the monic polynomial with the given lower terms. */
  function Remainder(data: seq<bv8>, divisor: seq<bv8>): (r: seq<bv8>)
    requires divisor != []
    ensures |r| == |divisor|
  {
    if data == [] then Zeros(|divisor|)
    else DivideByte(Remainder(data[..|data| - 1], divisor), divisor, data[|data| - 1])
  }

  /** The quotient of that division. */
  function Quotient(data: seq<bv8>, divisor: seq<bv8>): (q: seq<bv8>)
    requires divisor != []
    ensures |q| == |data|
  {
    if data == [] then []
    else
      var d, b := data[..|data| - 1], data[|data| - 1];
      Quotient(d, divisor) + [Add(b, Remainder(d, divisor)[0])]
  }

  /** Polynomial division, one data byte at a time. */
  method ComputeRemainder(data: seq<bv8>, divisor: seq<bv8>) returns (result: seq<bv8>)
    requires divisor != []
    ensures result == Remainder(data, divisor)
  {
    hide Mul, Add;
    result := seq(|divisor|, i => 0);
    for n := 0 to |data|
      invariant result == Remainder(data[..n], divisor)
    {
      ghost var r := result;
      var b := data[n];
      var factor := Add(b, result[0]);
      result := result[1..] + [0];
      for i := 0 to |result|
        invariant |result| == |divisor|
        invariant forall k :: 0 <= k < i ==> result[k] == DivideByte(r, divisor, b)[k]
        invariant forall k :: i <= k < |result| ==> result[k] == Shift(r)[k]
      {
        var product := Multiply(divisor[i], factor);
        result := result[i := Add(result[i], product)];
      }
      assert data[..n + 1][..n] == data[..n];
      assert result == DivideByte(r, divisor, b);
    }
    assert data[..|data|] == data;
  }

  lemma EvalShift(r: seq<bv8>, x: bv8)
    requires r != []
    ensures Eval(Shift(r), x) == Add(Mul(Eval(r, x), x), Mul(r[0], Pow(x, |r|)))
  {
    hide Mul, Add;
    var t := r[1..];
    assert r == [r[0]] + t;
    EvalConcat([r[0]], t, x);
    assert Eval([r[0]], x) == r[0] by {
      assert [r[0]][..0] == [];
      MulZero(x);
      AddZero(r[0]);
    }
    var head, v := Mul(r[0], Pow(x, |t|)), Eval(t, x);
    MulLinearLeft(head, v, x);
    MulAssoc(r[0], Pow(x, |t|), x);
    assert Pow(x, |r|) == Mul(Pow(x, |t|), x);
    AddComm(Mul(head, x), Mul(v, x));
    AddTwice(Mul(v, x), Mul(head, x));
    assert Shift(r)[..|t|] == t;
    AddZero(Mul(v, x));
  }

  /** data * x^d = quotient * divisor + remainder, as values at every point x. */
  lemma {:induction false} DivisionTheorem(data: seq<bv8>, divisor: seq<bv8>, x: bv8)
    requires divisor != []
    ensures Eval(data + Remainder(data, divisor), x) == Mul(Eval(Quotient(data, divisor), x), Eval([1] + divisor, x))
  {
    hide Mul, Add, Eval, Pow;
    if data == [] {
      DivisionBase(divisor, x);
    } else {
      var d, b := data[..|data| - 1], data[|data| - 1];
      DivisionTheorem(d, divisor, x);
      DivisionStep(d, b, divisor, x);
      assert d + [b] == data;
    }
  }

  lemma DivisionBase(divisor: seq<bv8>, x: bv8)
    requires divisor != []
    ensures Eval([] + Remainder([], divisor), x) == Mul(Eval(Quotient([], divisor), x), Eval([1] + divisor, x))
  {
    hide Mul, Add;
    EvalZeros(|divisor|, x);
    assert [] + Zeros(|divisor|) == Zeros(|divisor|);
    MulZero(Eval([1] + divisor, x));
  }

  lemma EvalAppend(p: seq<bv8>, c: bv8, x: bv8)
    ensures Eval(p + [c], x) == Add(Mul(Eval(p, x), x), c)
  {
    hide Mul, Add;
    assert (p + [c])[..|p|] == p;
  }

  lemma EvalMonic(divisor: seq<bv8>, x: bv8)
    ensures Eval([1] + divisor, x) == Add(Pow(x, |divisor|), Eval(divisor, x))
  {
    hide Mul, Add;
    EvalConcat([1], divisor, x);
    assert [1][..0] == [];
    MulZero(x);
    AddZero(1);
    MulOneLeft(Pow(x, |divisor|));
  }

  lemma DivisionStep(d: seq<bv8>, b: bv8, divisor: seq<bv8>, x: bv8)
    requires divisor != []
    requires Eval(d + Remainder(d, divisor), x) == Mul(Eval(Quotient(d, divisor), x), Eval([1] + divisor, x))
    ensures Eval(d + [b] + Remainder(d + [b], divisor), x)
         == Mul(Eval(Quotient(d + [b], divisor), x), Eval([1] + divisor, x))
  {
    hide Mul, Add, Eval, Pow;
    var n := |divisor|;
    var r := Remainder(d, divisor);
    var f := Add(b, r[0]);
    assert (d + [b])[..|d + [b]| - 1] == d;
    assert Remainder(d + [b], divisor) == Sum(Shift(r), Scale(divisor, f));
    assert Quotient(d + [b], divisor) == Quotient(d, divisor) + [f];
    var D, Q, R, G, X, V := Eval(d, x), Eval(Quotient(d, divisor), x), Eval(r, x), Eval([1] + divisor, x), Pow(x, n),
        Eval(divisor, x);
    EvalConcat(d, r, x);
    EvalConcat(d + [b], Sum(Shift(r), Scale(divisor, f)), x);
    EvalAppend(d, b, x);
    EvalAppend(Quotient(d, divisor), f, x);
    EvalSum(Shift(r), Scale(divisor, f), x);
    EvalShift(r, x);
    EvalScale(divisor, f, x);
    EvalMonic(divisor, x);
    DivisionAlgebra(D, Q, R, G, X, V, b, r[0], x);
  }

  /** The ring identity behind one division step. */
  lemma DivisionAlgebra(D: bv8, Q: bv8, R: bv8, G: bv8, X: bv8, V: bv8, b: bv8, c: bv8, x: bv8)
    requires Add(Mul(D, X), R) == Mul(Q, G)
    requires G == Add(X, V)
    ensures var f := Add(b, c);
            Add(Mul(Add(Mul(D, x), b), X), Add(Add(Mul(R, x), Mul(c, X)), Mul(V, f))) == Mul(Add(Mul(Q, x), f), G)
  {
    hide Mul, Add;
    var f := Add(b, c);
    // left-hand side: (D X + R) x + (f X + f V)
    MulLinearLeft(Mul(D, x), b, X);
    MulAssoc(D, x, X);
    MulComm(x, X);
    MulAssoc(D, X, x);
    MulLinearLeft(Mul(D, X), R, x);
    MulLinearLeft(b, c, X);
    MulComm(V, f);
    MulLinearRight(f, X, V);
    var a1, a2, a3, a4, a5 := Mul(Mul(D, X), x), Mul(b, X), Mul(R, x), Mul(c, X), Mul(f, V);
    AddAssoc(Add(a1, a2), Add(a3, a4), a5);
    AddSwap(a1, a2, a3, a4);
    AddAssoc(Add(a1, a3), Add(a2, a4), a5);
    // right-hand side: Q G x + f G
    MulLinearLeft(Mul(Q, x), f, G);
    MulAssoc(Q, x, G);
    MulComm(x, G);
    MulAssoc(Q, G, x);
  }
}
