/** The code formed by data followed by its Reed-Solomon remainder: membership, minimum distance,
    and how many changed bytes it can tell apart. */
module ReedSolomonCode {
  import opened GaloisField
  import opened ReedSolomon

  /** w vanishes at every root of the generator polynomial. */
  ghost predicate IsCodeword(w: seq<bv8>, degree: nat) {
    forall i: nat :: i < degree ==> Eval(w, Pow(2, i)) == 0
  }

  /** A data block with the error correction bytes the generator appends to it. */
  function Block(data: seq<bv8>, degree: nat): (w: seq<bv8>)
    requires degree > 0
    ensures |w| == |data| + degree
  {
    data + Remainder(data, Generator(degree)[1..])
  }

  /** The number of positions in which two words of equal length differ. */
  function Distance(a: seq<bv8>, b: seq<bv8>): nat
    requires |a| == |b|
  {
    if a == [] then 0 else (if a[0] != b[0] then 1 else 0) + Distance(a[1..], b[1..])
  }

  /** Every block is a codeword. */
  lemma BlockIsCodeword(data: seq<bv8>, degree: nat)
    requires degree > 0
    ensures IsCodeword(Block(data, degree), degree)
  {
    hide Mul, Add, Eval, Pow, Remainder, Quotient, Generator;
    var divisor := Generator(degree)[1..];
    GeneratorMonic(degree);
    assert [1] + divisor == Generator(degree);
    forall i: nat | i < degree
      ensures Eval(Block(data, degree), Pow(2, i)) == 0
    {
      var x := Pow(2, i);
      DivisionTheorem(data, divisor, x);
      assert IsRoot(degree, x);
      GeneratorRoots(degree, x);
      MulZero(Eval(Quotient(data, divisor), x));
    }
  }

  lemma SumIsCodeword(a: seq<bv8>, b: seq<bv8>, degree: nat)
    requires |a| == |b| && IsCodeword(a, degree) && IsCodeword(b, degree)
    ensures IsCodeword(Sum(a, b), degree)
  {
    hide Mul, Add, Eval, Pow, Sum;
    forall i: nat | i < degree
      ensures Eval(Sum(a, b), Pow(2, i)) == 0
    {
      EvalSum(a, b, Pow(2, i));
      AddZero(0);
    }
  }

  // ---------- Power sums ----------

  /** The sum of values[k] * points[k]^i. */
  function PowerSum(values: seq<bv8>, points: seq<bv8>, i: nat): bv8
    requires |values| == |points|
  {
    if values == [] then 0
    else Add(PowerSum(values[1..], points[1..], i), Mul(values[0], Pow(points[0], i)))
  }

  predicate AllDistinct(points: seq<bv8>) {
    forall i, j :: 0 <= i < j < |points| ==> points[i] != points[j]
  }

  /** values[k] * (points[k] - c), which eliminates the point c from a system of power sums. */
  function Eliminate(values: seq<bv8>, points: seq<bv8>, c: bv8): (r: seq<bv8>)
    requires |values| == |points|
    ensures |r| == |values|
  {
    seq(|values|, k requires 0 <= k < |values| => Mul(values[k], Add(points[k], c)))
  }

  lemma {:induction false} EliminateSum(values: seq<bv8>, points: seq<bv8>, c: bv8, i: nat)
    requires |values| == |points|
    ensures PowerSum(Eliminate(values, points, c), points, i)
         == Add(PowerSum(values, points, i + 1), Mul(PowerSum(values, points, i), c))
  {
    hide Mul, Add;
    if values == [] {
      MulZero(c);
      AddZero(0);
    } else {
      var vs, ps, v, p := values[1..], points[1..], values[0], points[0];
      assert Eliminate(values, points, c)[1..] == Eliminate(vs, ps, c);
      EliminateSum(vs, ps, c, i);
      var s, t, q := PowerSum(vs, ps, i + 1), PowerSum(vs, ps, i), Pow(p, i);
      // v (p + c) q = v q p + v q c
      MulLinearRight(v, p, c);
      MulLinearLeft(Mul(v, p), Mul(v, c), q);
      MulAssoc(v, p, q);
      MulComm(p, q);
      MulAssoc(v, c, q);
      MulComm(c, q);
      MulAssoc(v, q, c);
      MulLinearLeft(t, Mul(v, q), c);
      AddSwap(s, Mul(t, c), Mul(v, Mul(q, p)), Mul(Mul(v, q), c));
    }
  }

  lemma {:induction false} PowerSumZero(values: seq<bv8>, points: seq<bv8>, i: nat)
    requires |values| == |points| && forall k :: 0 <= k < |values| ==> values[k] == 0
    ensures PowerSum(values, points, i) == 0
  {
    hide Mul, Add;
    if values != [] {
      PowerSumZero(values[1..], points[1..], i);
      MulZero(Pow(points[0], i));
      AddZero(0);
    }
  }

  /** The Vandermonde argument: as many vanishing power sums as distinct points force all values to 0. */
  lemma {:induction false} PowerSumsDetermine(values: seq<bv8>, points: seq<bv8>)
    requires |values| == |points| && AllDistinct(points)
    requires forall i: nat :: i < |values| ==> PowerSum(values, points, i) == 0
    ensures forall k :: 0 <= k < |values| ==> values[k] == 0
    decreases |values|
  {
    hide Mul, Add;
    if values != [] {
      var vs, ps, v, c := values[1..], points[1..], values[0], points[0];
      var es := Eliminate(vs, ps, c);
      forall i: nat | i < |es|
        ensures PowerSum(es, ps, i) == 0
      {
        EliminateHead(values, points, i);
      }
      PowerSumsDetermine(es, ps);
      forall k | 0 <= k < |vs|
        ensures vs[k] == 0
      {
        assert es[k] == 0;
        assert ps[k] == points[k + 1];
        MulCancel(vs[k], Add(ps[k], c));
        AddCancel(ps[k], c);
      }
      PowerSumZero(vs, ps, 0);
      AddZero(v);
      MulOneRight(v);
      assert PowerSum(values, points, 0) == v;
    }
  }

  lemma EliminateHead(values: seq<bv8>, points: seq<bv8>, i: nat)
    requires |values| == |points| > 0
    requires PowerSum(values, points, i) == 0 && PowerSum(values, points, i + 1) == 0
    ensures PowerSum(Eliminate(values[1..], points[1..], points[0]), points[1..], i) == 0
  {
    hide Mul, Add;
    var vs, ps, v, c := values[1..], points[1..], values[0], points[0];
    EliminateSum(vs, ps, c, i);
    var s, t, q := PowerSum(vs, ps, i + 1), PowerSum(vs, ps, i), Pow(c, i);
    AddCancel(t, Mul(v, q));
    AddCancel(s, Mul(v, Mul(q, c)));
    MulAssoc(v, q, c);
    AddZero(s);
  }

  // ---------- Minimum distance ----------

  /** The non-zero entries of w, first to last. */
  function Values(w: seq<bv8>): seq<bv8> {
    if w == [] then [] else (if w[0] != 0 then [w[0]] else []) + Values(w[1..])
  }

  /** Their locators: the entry that multiplies x^k has locator 2^k. */
  function Locators(w: seq<bv8>): (r: seq<bv8>)
    ensures |r| == |Values(w)|
  {
    if w == [] then [] else (if w[0] != 0 then [Pow(2, |w| - 1)] else []) + Locators(w[1..])
  }

  lemma {:induction false} EvalIsPowerSum(w: seq<bv8>, i: nat)
    ensures Eval(w, Pow(2, i)) == PowerSum(Values(w), Locators(w), i)
  {
    hide Mul, Add;
    if w != [] {
      var t, x := w[1..], Pow(2, i);
      EvalIsPowerSum(t, i);
      assert w == [w[0]] + t;
      EvalConcat([w[0]], t, x);
      assert Eval([w[0]], x) == w[0] by {
        assert [w[0]][..0] == [];
        MulZero(x);
        AddZero(w[0]);
      }
      PowMul(2, i, |t|);
      PowMul(2, |t|, i);
      assert i * |t| == |t| * i;
      AddComm(Mul(w[0], Pow(x, |t|)), Eval(t, x));
      MulZero(Pow(x, |t|));
      AddZero(Eval(t, x));
      if w[0] != 0 {
        assert Values(w)[1..] == Values(t) && Locators(w)[1..] == Locators(t);
      } else {
        assert Values(w) == Values(t) && Locators(w) == Locators(t);
      }
    }
  }

  ghost predicate IsPowerBelow(x: bv8, n: nat) {
    exists k: nat :: k < n && Pow(2, k) == x
  }

  lemma {:induction false} LocatorsDistinct(w: seq<bv8>)
    requires |w| <= 255
    ensures AllDistinct(Locators(w))
    ensures forall j :: 0 <= j < |Locators(w)| ==> IsPowerBelow(Locators(w)[j], |w|)
    ensures Values(w) != [] ==> Values(w)[0] != 0
  {
    hide Mul, Add;
    if w != [] {
      var t := w[1..];
      LocatorsDistinct(t);
      forall j | 0 <= j < |Locators(t)|
        ensures Locators(t)[j] != Pow(2, |t|)
      {
        assert IsPowerBelow(Locators(t)[j], |t|);
        var k: nat :| k < |t| && Pow(2, k) == Locators(t)[j];
        PowersDistinct(k, |t|);
      }
      forall x | IsPowerBelow(x, |t|)
        ensures IsPowerBelow(x, |w|)
      {
        var k: nat :| k < |t| && Pow(2, k) == x;
      }
      assert IsPowerBelow(Pow(2, |t|), |w|);
      if w[0] != 0 {
        assert Locators(w) == [Pow(2, |t|)] + Locators(t);
      } else {
        assert Locators(w) == Locators(t);
      }
    }
  }

  lemma {:induction false} DistanceIsWeight(a: seq<bv8>, b: seq<bv8>)
    requires |a| == |b|
    ensures Distance(a, b) == |Values(Sum(a, b))|
    ensures Distance(a, b) == 0 <==> a == b
  {
    hide Mul, Add;
    if a != [] {
      DistanceIsWeight(a[1..], b[1..]);
      AddCancel(a[0], b[0]);
      assert Sum(a, b)[1..] == Sum(a[1..], b[1..]);
      assert a == [a[0]] + a[1..] && b == [b[0]] + b[1..];
    }
  }

  /** Two different codewords of at most 255 bytes differ in more than `degree` positions. */
  lemma MinimumDistance(a: seq<bv8>, b: seq<bv8>, degree: nat)
    requires |a| == |b| <= 255 && a != b
    requires IsCodeword(a, degree) && IsCodeword(b, degree)
    ensures Distance(a, b) > degree
  {
    hide Mul, Add, Pow, PowerSum, Eval, Sum, Locators, Values, Distance;
    var w := Sum(a, b);
    SumIsCodeword(a, b, degree);
    DistanceIsWeight(a, b);
    var n := |Values(w)|;
    if n <= degree {
      forall i: nat | i < n
        ensures PowerSum(Values(w), Locators(w), i) == 0
      {
        EvalIsPowerSum(w, i);
      }
      LocatorsDistinct(w);
      PowerSumsDetermine(Values(w), Locators(w));
      assert false;
    }
  }

  /** Blocks of different data of the same length differ in at least degree + 1 positions. */
  lemma BlockDistance(data: seq<bv8>, other: seq<bv8>, degree: nat)
    requires degree > 0 && |data| == |other| && |data| + degree <= 255 && data != other
    ensures Distance(Block(data, degree), Block(other, degree)) >= degree + 1
  {
    hide Mul, Add, Distance, IsCodeword, Block;
    BlockIsCodeword(data, degree);
    BlockIsCodeword(other, degree);
    assert Block(data, degree) != Block(other, degree) by {
      BlockStartsWithData(data, degree);
      BlockStartsWithData(other, degree);
    }
    MinimumDistance(Block(data, degree), Block(other, degree), degree);
  }

  lemma BlockStartsWithData(data: seq<bv8>, degree: nat)
    requires degree > 0
    ensures Block(data, degree)[..|data|] == data
  {}

  lemma {:induction false} DistanceTail(a: seq<bv8>, b: seq<bv8>, n: nat)
    requires |a| == |b| && n <= |a| && a[..n] == b[..n]
    ensures Distance(a, b) <= |a| - n
  {
    if a != [] {
      if n > 0 {
        assert a[0] == a[..n][0] == b[..n][0] == b[0];
        assert a[1..][..n - 1] == a[..n][1..] && b[1..][..n - 1] == b[..n][1..];
        DistanceTail(a[1..], b[1..], n - 1);
      } else {
        DistanceTail(a[1..], b[1..], 0);
      }
    }
  }

  /** The codewords of at most 255 bytes are exactly the blocks: the appended bytes are the only
      ones that make the word vanish at the roots. */
  lemma CodewordsAreBlocks(data: seq<bv8>, ecc: seq<bv8>)
    requires ecc != [] && |data| + |ecc| <= 255
    ensures IsCodeword(data + ecc, |ecc|) <==> ecc == Remainder(data, Generator(|ecc|)[1..])
  {
    hide Mul, Add, Distance, IsCodeword, Remainder;
    var w := Block(data, |ecc|);
    BlockIsCodeword(data, |ecc|);
    if IsCodeword(data + ecc, |ecc|) && data + ecc != w {
      MinimumDistance(data + ecc, w, |ecc|);
      DistanceTail(data + ecc, w, |data|);
    }
    assert (data + ecc)[|data|..] == ecc && w[|data|..] == Remainder(data, Generator(|ecc|)[1..]);
  }

  /** Changing between 1 and `degree` bytes of a block is always visible. */
  lemma ChangesAreDetected(data: seq<bv8>, degree: nat, received: seq<bv8>)
    requires degree > 0 && |received| == |data| + degree <= 255
    requires 1 <= Distance(Block(data, degree), received) <= degree
    ensures !IsCodeword(received, degree)
  {
    hide Mul, Add, IsCodeword, Block, Distance;
    BlockIsCodeword(data, degree);
    DistanceIsWeight(Block(data, degree), received);
    if IsCodeword(received, degree) {
      MinimumDistance(Block(data, degree), received, degree);
    }
  }

  lemma {:induction false} DistanceTriangle(a: seq<bv8>, b: seq<bv8>, c: seq<bv8>)
    requires |a| == |b| == |c|
    ensures Distance(a, c) <= Distance(a, b) + Distance(b, c)
    ensures Distance(a, b) == Distance(b, a)
  {
    if a != [] {
      DistanceTriangle(a[1..], b[1..], c[1..]);
    }
  }

  /** With at most degree / 2 changed bytes, the data is still determined by what was received. */
  lemma ChangesAreCorrectable(data: seq<bv8>, other: seq<bv8>, degree: nat, received: seq<bv8>)
    requires degree > 0 && |data| == |other| && |received| == |data| + degree <= 255
    requires 2 * Distance(Block(data, degree), received) <= degree
    requires 2 * Distance(Block(other, degree), received) <= degree
    ensures data == other
  {
    hide Mul, Add, IsCodeword, Block, Distance;
    if data != other {
      BlockDistance(data, other, degree);
      DistanceTriangle(Block(data, degree), received, Block(other, degree));
      DistanceTriangle(received, Block(other, degree), received);
    }
  }
}
