/** The field GF(2^8) of the QR Code error correction, reduced by x^8 + x^4 + x^3 + x^2 + 1 (0x11D).

    The laws are derived from linearity: every byte is built from 0 by doubling and adding a last
    bit (`Horner`), so a law that respects both steps holds for all bytes. The bit-vector
    definitions are hidden outside the few lemmas that are about single steps. */
module GaloisField {

  /** Addition, which is also subtraction: exclusive or. */
  function Add(a: bv8, b: bv8): bv8 { a ^ b }

  /** Multiplication by x, that is by the element 0x02. */
  function Double(z: bv8): bv8 { (z << 1) ^ ((z >> 7) * 0x1D) }

  function Half(y: bv8): bv8 { y >> 1 }

  predicate Last(y: bv8) { y & 1 == 1 }

  function Select(c: bool, x: bv8): bv8 { if c then x else 0 }

  /** The product of two field elements, by Horner's scheme over the bits of `y`. */
  function Mul(x: bv8, y: bv8): bv8
    decreases y
  {
    if y == 0 then 0 else Add(Double(Mul(x, Half(y))), Select(Last(y), x))
  }

  /** The n-th power of a field element. */
  function Pow(x: bv8, n: nat): bv8 {
    if n == 0 then 1 else Mul(Pow(x, n - 1), x)
  }

  // ---------- Addition ----------

  lemma AddComm(a: bv8, b: bv8)
    ensures Add(a, b) == Add(b, a)
  {}

  lemma AddAssoc(a: bv8, b: bv8, c: bv8)
    ensures Add(Add(a, b), c) == Add(a, Add(b, c))
  {
    assert (a ^ b) ^ c == a ^ (b ^ c);
  }

  lemma AddZero(a: bv8)
    ensures Add(a, 0) == a && Add(0, a) == a && Add(a, a) == 0
  {}

  lemma AddSwap(a: bv8, b: bv8, c: bv8, d: bv8)
    ensures Add(Add(a, b), Add(c, d)) == Add(Add(a, c), Add(b, d))
  {
    assert (a ^ b) ^ (c ^ d) == (a ^ c) ^ (b ^ d);
  }

  lemma AddCancel(a: bv8, b: bv8)
    ensures Add(a, b) == 0 <==> a == b
  {
    assert (a ^ b) ^ b == a;
  }

  lemma AddTwice(a: bv8, b: bv8)
    ensures Add(Add(a, b), b) == a && Add(b, Add(b, a)) == a
  {
    assert (a ^ b) ^ b == a && b ^ (b ^ a) == a;
  }

  // ---------- Single bit steps ----------

  lemma DoubleLinear(a: bv8, b: bv8)
    ensures Double(Add(a, b)) == Add(Double(a), Double(b))
  {}

  lemma HalfLinear(a: bv8, b: bv8)
    ensures Half(Add(a, b)) == Add(Half(a), Half(b))
    ensures Last(Add(a, b)) == (Last(a) != Last(b))
  {}

  lemma HalfDecreases(a: bv8, b: bv8)
    requires a | b != 0
    ensures Half(a) | Half(b) < a | b
  {
    var c := a | b;
    assert (a >> 1) | (b >> 1) == c >> 1;
    assert c != 0 ==> c >> 1 < c;
  }

  lemma HalfSmaller(a: bv8)
    ensures a != 0 ==> Half(a) < a
  {}

  /** Every byte is the double of a smaller byte, plus its last bit. */
  lemma Horner(x: bv8)
    ensures x == Add(Double(Half(x)), Select(Last(x), 1))
  {}

  lemma SelectLinear(c: bool, d: bool, x: bv8, y: bv8)
    ensures Select(c, Add(x, y)) == Add(Select(c, x), Select(c, y))
    ensures Select(c != d, x) == Add(Select(c, x), Select(d, x))
  {}

  lemma DoubleZero()
    ensures Double(0) == 0 && Half(0) == 0 && !Last(0) && Half(1) == 0 && Last(1)
  {}

  lemma MulUnfold(x: bv8, y: bv8)
    ensures Mul(x, y) == Add(Double(Mul(x, Half(y))), Select(Last(y), x))
  {
    hide Double, Add, Half, Last;
    DoubleZero();
    AddZero(0);
  }

  // ---------- Multiplication ----------

  lemma {:induction false} MulLinearLeft(a: bv8, b: bv8, y: bv8)
    ensures Mul(Add(a, b), y) == Add(Mul(a, y), Mul(b, y))
    decreases y
  {
    hide Add, Double, Half, Last, Select;
    if y == 0 {
      AddZero(0);
    } else {
      HalfSmaller(y);
      MulLinearLeft(a, b, Half(y));
      var p, q := Mul(a, Half(y)), Mul(b, Half(y));
      DoubleLinear(p, q);
      SelectLinear(Last(y), false, a, b);
      AddSwap(Double(p), Double(q), Select(Last(y), a), Select(Last(y), b));
    }
  }

  lemma {:induction false} MulLinearRight(x: bv8, a: bv8, b: bv8)
    ensures Mul(x, Add(a, b)) == Add(Mul(x, a), Mul(x, b))
    decreases a | b
  {
    hide Add, Double, Half, Last, Select;
    if a | b == 0 {
      assert a == 0 && b == 0;
      AddZero(0);
    } else {
      HalfDecreases(a, b);
      MulLinearRight(x, Half(a), Half(b));
      hide Mul;
      HalfLinear(a, b);
      MulUnfold(x, a);
      MulUnfold(x, b);
      MulUnfold(x, Add(a, b));
      var p, q := Mul(x, Half(a)), Mul(x, Half(b));
      DoubleLinear(p, q);
      SelectLinear(Last(a), Last(b), x, 0);
      AddSwap(Double(p), Double(q), Select(Last(a), x), Select(Last(b), x));
    }
  }

  lemma MulZero(x: bv8)
    ensures Mul(x, 0) == 0 && Mul(0, x) == 0
  {
    hide Add, Double;
    MulLinearLeft(0, 0, x);
    AddZero(0);
    AddZero(Mul(0, x));
  }

  lemma MulSelect(c: bool, x: bv8, y: bv8)
    ensures Mul(Select(c, x), y) == Select(c, Mul(x, y))
    ensures Mul(x, Select(c, y)) == Select(c, Mul(x, y))
  {
    hide Add, Double, Mul;
    MulZero(x);
    MulZero(y);
  }

  lemma DoubleSelect(c: bool, x: bv8)
    ensures Double(Select(c, x)) == Select(c, Double(x))
  {
    hide Double;
    DoubleZero();
  }

  lemma {:induction false} MulDoubleLeft(x: bv8, y: bv8)
    ensures Mul(Double(x), y) == Double(Mul(x, y))
    decreases y
  {
    hide Add, Double, Half, Last, Select;
    if y == 0 {
      DoubleZero();
    } else {
      HalfSmaller(y);
      MulDoubleLeft(x, Half(y));
      DoubleSelect(Last(y), x);
      DoubleLinear(Double(Mul(x, Half(y))), Select(Last(y), x));
    }
  }

  lemma MulOneRight(x: bv8)
    ensures Mul(x, 1) == x
  {
    hide Add, Double, Half, Last;
    MulUnfold(x, 1);
    DoubleZero();
    MulZero(x);
    AddZero(x);
  }

  lemma {:induction false} MulOneLeft(x: bv8)
    ensures Mul(1, x) == x
    decreases x
  {
    hide Add, Double, Half, Last, Select;
    if x != 0 {
      HalfSmaller(x);
      MulOneLeft(Half(x));
      Horner(x);
    }
  }

  lemma {:induction false} MulComm(x: bv8, y: bv8)
    ensures Mul(x, y) == Mul(y, x)
    decreases x
  {
    hide Add, Double, Half, Last, Select;
    if x == 0 {
      MulZero(y);
    } else {
      var h := Half(x);
      HalfSmaller(x);
      MulComm(h, y);
      hide Mul;
      Horner(x);
      MulLinearLeft(Double(h), Select(Last(x), 1), y);
      MulDoubleLeft(h, y);
      MulSelect(Last(x), 1, y);
      MulOneLeft(y);
      MulUnfold(y, x);
    }
  }

  lemma {:induction false} MulAssoc(x: bv8, y: bv8, z: bv8)
    ensures Mul(Mul(x, y), z) == Mul(x, Mul(y, z))
    decreases x
  {
    hide Add, Double, Half, Last, Select;
    if x == 0 {
      MulZero(y);
      MulZero(z);
      MulZero(Mul(y, z));
    } else {
      var h := Half(x);
      HalfSmaller(x);
      MulAssoc(h, y, z);
      hide Mul;
      Horner(x);
      MulOneLeft(y);
      MulOneLeft(Mul(y, z));
      forall w
        ensures Mul(x, w) == Add(Double(Mul(h, w)), Select(Last(x), Mul(1, w)))
      {
        MulLinearLeft(Double(h), Select(Last(x), 1), w);
        MulDoubleLeft(h, w);
        MulSelect(Last(x), 1, w);
      }
      MulLinearLeft(Double(Mul(h, y)), Select(Last(x), y), z);
      MulDoubleLeft(Mul(h, y), z);
      MulSelect(Last(x), y, z);
    }
  }

  lemma DoubleIsMulTwo(x: bv8)
    ensures Mul(x, 2) == Double(x) && Mul(2, x) == Double(x)
  {
    hide Add, Half, Last, Select, Double;
    assert Double(1) == 2 by { DoubleOfOne(); }
    MulDoubleLeft(1, x);
    MulOneLeft(x);
    MulComm(x, 2);
  }

  lemma DoubleOfOne()
    ensures Double(1) == 2
  {}

  // ---------- Powers ----------

  lemma {:induction false} PowAdd(x: bv8, m: nat, n: nat)
    ensures Pow(x, m + n) == Mul(Pow(x, m), Pow(x, n))
  {
    hide Mul;
    if n == 0 {
      MulOneRight(Pow(x, m));
    } else {
      PowAdd(x, m, n - 1);
      MulAssoc(Pow(x, m), Pow(x, n - 1), x);
    }
  }

  lemma {:induction false} PowMul(x: bv8, m: nat, n: nat)
    ensures Pow(Pow(x, m), n) == Pow(x, m * n)
  {
    hide Mul;
    if n > 0 {
      PowMul(x, m, n - 1);
      assert m * n == m * (n - 1) + m;
      PowAdd(x, m * (n - 1), m);
    }
  }

  lemma PowTwo(n: nat)
    ensures Pow(2, n + 1) == Double(Pow(2, n))
  {
    hide Mul, Double;
    DoubleIsMulTwo(Pow(2, n));
  }

  // ---------- Squaring is linear, so x^256 = x and every non-zero element is invertible ----------

  /** The square of a byte, bit by bit: the square of bit i is 2^(2i). */
  function SquareBits(x: bv8): bv8 {
    (x & 1) ^ ((x & 2) << 1) ^ ((x & 4) << 2) ^ ((x & 8) << 3)
    ^ (((x >> 4) & 1) * 0x1D) ^ (((x >> 5) & 1) * 0x74) ^ (((x >> 6) & 1) * 0xCD) ^ (((x >> 7) & 1) * 0x13)
  }

  lemma SquareLinear(a: bv8, b: bv8)
    ensures Mul(Add(a, b), Add(a, b)) == Add(Mul(a, a), Mul(b, b))
  {
    hide Add, Mul;
    var c := Add(a, b);
    MulLinearLeft(a, b, c);
    MulLinearRight(a, a, b);
    MulLinearRight(b, a, b);
    MulComm(a, b);
    var aa, bb, ab := Mul(a, a), Mul(b, b), Mul(a, b);
    AddComm(ab, bb);
    AddSwap(aa, ab, bb, ab);
    AddZero(ab);
    AddZero(Add(aa, bb));
  }

  lemma SquareBitsStep(x: bv8)
    ensures SquareBits(x) == Add(Double(Double(SquareBits(Half(x)))), Select(Last(x), 1))
  {}

  lemma SquareBitsFixed(x: bv8)
    requires SquareBits(x) == x
    ensures x == 0 || x == 1
  {}

  lemma {:induction false} SquareIsBits(x: bv8)
    ensures Mul(x, x) == SquareBits(x)
    decreases x
  {
    hide Add, Double, Half, Last, Select, SquareBits;
    if x == 0 {
      assert SquareBits(0) == 0 by { SquareBitsZero(); }
    } else {
      HalfSmaller(x);
      var h, l := Half(x), Select(Last(x), 1);
      SquareIsBits(h);
      hide Mul;
      Horner(x);
      SquareLinear(Double(h), l);
      MulDoubleLeft(h, Double(h));
      MulComm(h, Double(h));
      MulDoubleLeft(h, h);
      MulSelect(Last(x), 1, l);
      MulOneLeft(l);
      assert Mul(l, l) == l by { SelectTwice(Last(x)); }
      SquareBitsStep(x);
    }
  }

  lemma SquareBitsZero()
    ensures SquareBits(0) == 0
  {}

  lemma SelectTwice(c: bool)
    ensures Select(c, Select(c, 1)) == Select(c, 1)
  {}

  lemma PowDouble(x: bv8, n: nat)
    ensures Pow(x, 2 * n) == SquareBits(Pow(x, n))
  {
    hide Mul, SquareBits;
    PowAdd(x, n, n);
    SquareIsBits(Pow(x, n));
  }

  /** The k-fold square x^(2^k). */
  function Frobenius(x: bv8, k: nat): bv8 {
    if k == 0 then x else SquareBits(Frobenius(x, k - 1))
  }

  lemma {:induction false} FrobeniusLaws(x: bv8, y: bv8, k: nat)
    ensures Frobenius(Add(x, y), k) == Add(Frobenius(x, k), Frobenius(y, k))
    ensures Frobenius(Mul(x, y), k) == Mul(Frobenius(x, k), Frobenius(y, k))
    ensures Frobenius(0, k) == 0 && Frobenius(1, k) == 1
  {
    hide Mul, Add, SquareBits;
    if k > 0 {
      FrobeniusLaws(x, y, k - 1);
      var fx, fy := Frobenius(x, k - 1), Frobenius(y, k - 1);
      SquareIsBits(fx);
      SquareIsBits(fy);
      SquareIsBits(Add(fx, fy));
      SquareLinear(fx, fy);
      SquareIsBits(Mul(fx, fy));
      MulSwap(fx, fy, fx, fy);
      SquareIsBits(0);
      MulZero(0);
      SquareIsBits(1);
      MulOneLeft(1);
    }
  }

  lemma MulSwap(a: bv8, b: bv8, c: bv8, d: bv8)
    ensures Mul(Mul(a, b), Mul(c, d)) == Mul(Mul(a, c), Mul(b, d))
  {
    hide Mul;
    MulAssoc(a, b, Mul(c, d));
    MulAssoc(b, c, d);
    MulComm(b, c);
    MulAssoc(c, b, d);
    MulAssoc(a, c, Mul(b, d));
  }

  lemma FrobeniusOfTwo()
    ensures Frobenius(2, 8) == 2
  {
    assert Frobenius(2, 1) == 4;
    assert Frobenius(2, 2) == 16;
    assert Frobenius(2, 3) == 29;
    assert Frobenius(2, 4) == 76;
    assert Frobenius(2, 5) == 157;
    assert Frobenius(2, 6) == 95;
    assert Frobenius(2, 7) == 133;
  }

  lemma {:induction false} FrobeniusIdentity(x: bv8)
    ensures Frobenius(x, 8) == x
    decreases x
  {
    hide Mul, Add, SquareBits, Double, Half, Last, Select, Frobenius;
    FrobeniusLaws(0, 0, 8);
    if x != 0 {
      var h := Half(x);
      HalfSmaller(x);
      FrobeniusIdentity(h);
      Horner(x);
      FrobeniusLaws(Double(h), Select(Last(x), 1), 8);
      DoubleIsMulTwo(h);
      FrobeniusLaws(2, h, 8);
      FrobeniusOfTwo();
      assert Frobenius(Select(Last(x), 1), 8) == Select(Last(x), 1) by { SelectCases(Last(x)); }
    }
  }

  lemma SelectCases(c: bool)
    ensures Select(c, 1) == if c then 1 else 0
  {}

  lemma {:induction false} FrobeniusIsPower(x: bv8)
    ensures Frobenius(x, 8) == Pow(x, 256)
  {
    hide Mul, SquareBits;
    MulOneLeft(x);
    assert Frobenius(x, 0) == Pow(x, 1);
    SquareStep(x, 0, 1);
    SquareStep(x, 1, 2);
    SquareStep(x, 2, 4);
    SquareStep(x, 3, 8);
    SquareStep(x, 4, 16);
    SquareStep(x, 5, 32);
    SquareStep(x, 6, 64);
    SquareStep(x, 7, 128);
  }

  lemma SquareStep(x: bv8, k: nat, n: nat)
    requires Frobenius(x, k) == Pow(x, n)
    ensures Frobenius(x, k + 1) == Pow(x, 2 * n)
  {
    hide Mul, SquareBits;
    PowDouble(x, n);
  }

  /** Every non-zero element has multiplicative order dividing 255. */
  lemma NonZeroOrder(x: bv8)
    requires x != 0
    ensures Pow(x, 255) == 1
  {
    hide Mul, SquareBits, Frobenius;
    var e := Pow(x, 255);
    FrobeniusIdentity(x);
    FrobeniusIsPower(x);
    assert Pow(x, 256) == Mul(e, x);
    // e is idempotent: x^510 = x^254 * x^256 = x^255
    PowAdd(x, 255, 255);
    PowAdd(x, 254, 256);
    assert Pow(x, 255) == Mul(Pow(x, 254), x);
    assert Mul(e, e) == e;
    SquareIsBits(e);
    SquareBitsFixed(e);
    MulZero(x);
  }

  /** The field has no zero divisors. */
  lemma MulCancel(a: bv8, b: bv8)
    ensures Mul(a, b) == 0 <==> a == 0 || b == 0
  {
    hide Mul;
    MulZero(a);
    MulZero(b);
    if Mul(a, b) == 0 && a != 0 {
      NonZeroOrder(a);
      assert Pow(a, 255) == Mul(Pow(a, 254), a);
      MulAssoc(Pow(a, 254), a, b);
      MulOneLeft(b);
      MulZero(Pow(a, 254));
    }
  }

  // ---------- 2 generates the multiplicative group ----------

  lemma PowersOfTwo()
    ensures Pow(2, 1) != 1 && Pow(2, 3) != 1 && Pow(2, 5) != 1 && Pow(2, 15) != 1
    ensures Pow(2, 17) != 1 && Pow(2, 51) != 1 && Pow(2, 85) != 1
  {
    hide Mul, Pow;
    assert Pow(2, 0) == 1 by { PowZero(2); }
    Next(0, 0x01, 0x02, 0x01);
    Next(1, 0x02, 0x04, 0x04);
    Next(2, 0x04, 0x08, 0x10);
    Next(3, 0x08, 0x10, 0x40);
    Next(4, 0x10, 0x20, 0x1D);
    Next(5, 0x20, 0x40, 0x74);
    Next(6, 0x40, 0x80, 0xCD);
    Next(7, 0x80, 0x1D, 0x13);
    Next(14, 0x13, 0x26, 0x18);
    Next(8, 0x1D, 0x3A, 0x4C);
    Next(16, 0x4C, 0x98, 0x9D);
    Next(12, 0xCD, 0x87, 0x8F);
    Next(24, 0x8F, 0x03, 0x46);
    Next(25, 0x03, 0x06, 0x05);
    Next(50, 0x05, 0x0A, 0x11);
    Next(10, 0x74, 0xE8, 0xB4);
    Next(20, 0xB4, 0x75, 0x6A);
    Next(21, 0x75, 0xEA, 0xB5);
    Next(42, 0xB5, 0x77, 0x6B);
    Next(84, 0x6B, 0xD6, 0xFC);
  }

  lemma PowZero(x: bv8)
    ensures Pow(x, 0) == 1
  {}

  lemma Next(n: nat, v: bv8, doubled: bv8, squared: bv8)
    requires Pow(2, n) == v && Double(v) == doubled && SquareBits(v) == squared
    ensures Pow(2, n + 1) == doubled && Pow(2, 2 * n) == squared
  {
    hide Mul, SquareBits, Double;
    PowTwo(n);
    PowDouble(2, n);
  }

  lemma QuotientRemainder(m: nat) returns (q: nat, r: nat)
    requires 0 < m
    ensures 255 == m * q + r && r < m
  {
    q, r := 255 / m, 255 % m;
  }

  /** The powers 2^0 .. 2^254 are different from 1, apart from 2^0. */
  lemma {:induction false} OrderOfTwo(m: nat)
    requires 0 < m < 255
    ensures Pow(2, m) != 1
    decreases m
  {
    hide Mul;
    hide Pow;
    var q, r := QuotientRemainder(m);
    if r == 0 {
      PowersOfTwo();
      Divisors(m, q);
    } else {
      OrderOfTwo(r);
      if Pow(2, m) == 1 {
        NonZeroOrder(2);
        PowAdd(2, m * q, r);
        PowMul(2, m, q);
        PowOne(q);
        MulOneLeft(Pow(2, r));
      }
    }
  }

  lemma {:induction false} PowOne(n: nat)
    ensures Pow(1, n) == 1
  {
    hide Mul;
    if n > 0 {
      PowOne(n - 1);
      MulOneLeft(1);
    }
  }

  lemma Divisors(m: nat, q: nat)
    requires m * q == 255 && m < 255
    ensures m in {1, 3, 5, 15, 17, 51, 85}
  {
    if m < 16 {
      SmallDivisor(m, q);
    } else {
      BothLarge(m, q);
      SmallDivisor(q, m);
    }
  }

  lemma BothLarge(m: nat, q: nat)
    requires m >= 16 && m * q == 255
    ensures q < 16
  {
    assert m * q == 16 * q + (m - 16) * q;
    assert 0 <= (m - 16) * q;
  }

  lemma SmallDivisor(k: nat, o: nat)
    requires k * o == 255 && k < 16
    ensures (k == 1 && o == 255) || (k == 3 && o == 85) || (k == 5 && o == 51) || (k == 15 && o == 17)
  {
    assert k == 0 || k == 1 || k == 2 || k == 3 || k == 4 || k == 5 || k == 6 || k == 7
        || k == 8 || k == 9 || k == 10 || k == 11 || k == 12 || k == 13 || k == 14 || k == 15;
  }

  /** Distinct exponents below 255 give distinct powers of two. */
  lemma PowersDistinct(i: nat, j: nat)
    requires i < j < 255
    ensures Pow(2, i) != Pow(2, j)
  {
    hide Mul;
    OrderOfTwo(j - i);
    PowNonZero(i);
    if Pow(2, i) == Pow(2, j) {
      PowAdd(2, i, j - i);
      var a, b := Pow(2, i), Pow(2, j - i);
      MulOneRight(a);
      MulLinearRight(a, b, 1);
      AddCancel(a, a);
      AddCancel(b, 1);
      MulCancel(a, Add(b, 1));
    }
  }

  lemma {:induction false} PowNonZero(n: nat)
    ensures Pow(2, n) != 0
  {
    hide Mul;
    if n > 0 {
      PowNonZero(n - 1);
      MulCancel(Pow(2, n - 1), 2);
    }
  }
}
