/** Bit strings and the numbers they stand for, least and most significant bit first. */
module Bits {
  import opened Arithmetic

  function Pow2(n: nat): (p: nat)
    ensures p >= 1
  {
    if n == 0 then 1 else 2 * Pow2(n - 1)
  }

  function Bit(b: bool): nat { if b then 1 else 0 }

  // ---------- Least significant bit first ----------

  function LowBits(n: nat, len: nat): (b: seq<bool>)
    ensures |b| == len
  {
    if len == 0 then [] else [n % 2 == 1] + LowBits(n / 2, len - 1)
  }

  function LowValue(b: seq<bool>): nat {
    if b == [] then 0 else Bit(b[0]) + 2 * LowValue(b[1..])
  }

  lemma {:induction false} LowValueBound(b: seq<bool>)
    ensures LowValue(b) < Pow2(|b|)
  {
    if b != [] { LowValueBound(b[1..]); }
  }

  lemma {:induction false} LowValueOfBits(n: nat, len: nat)
    requires n < Pow2(len)
    ensures LowValue(LowBits(n, len)) == n
  {
    if len > 0 {
      LowValueOfBits(n / 2, len - 1);
      assert LowBits(n, len)[1..] == LowBits(n / 2, len - 1);
    }
  }

  lemma {:induction false} LowBitsOfValue(b: seq<bool>)
    ensures LowBits(LowValue(b), |b|) == b
  {
    if b != [] {
      LowBitsOfValue(b[1..]);
      HalfOf(LowValue(b[1..]), b[0]);
    }
  }

  lemma HalfOf(v: nat, b: bool)
    ensures (2 * v + Bit(b)) / 2 == v && ((2 * v + Bit(b)) % 2 == 1 <==> b)
  {}

  /** Low bits do not see what is added above them. */
  lemma {:induction false} LowBitsConcat(low: nat, high: nat, len: nat, more: nat)
    requires low < Pow2(len)
    ensures LowBits(low + Pow2(len) * high, len + more) == LowBits(low, len) + LowBits(high, more)
  {
    if len == 0 {
      assert LowBits(low, 0) == [];
      assert low + 1 * high == high;
    } else {
      var n, p := low + Pow2(len) * high, Pow2(len - 1);
      assert Pow2(len) * high == 2 * (p * high);
      HalfOf(low / 2 + p * high, low % 2 == 1);
      LowBitsConcat(low / 2, high, len - 1, more);
    }
  }

  lemma {:induction false} LowBitsZero(n: nat)
    ensures LowBits(0, n) == seq(n, i => false)
  {
    if n > 0 { LowBitsZero(n - 1); }
  }

  lemma SliceInit<T>(s: seq<T>, p: nat, q: nat)
    requires p < q <= |s|
    ensures s[p..q][..q - p - 1] == s[p..q - 1]
  {}

  // ---------- Most significant bit first ----------

  function HighBits(n: nat, len: nat): (b: seq<bool>)
    ensures |b| == len
  {
    if len == 0 then [] else HighBits(n / 2, len - 1) + [n % 2 == 1]
  }

  lemma HighBitsInit(n: nat, len: nat)
    requires len > 0
    ensures HighBits(n, len) == HighBits(n / 2, len - 1) + [n % 2 == 1]
  {}

  function HighValue(b: seq<bool>): nat {
    if b == [] then 0 else 2 * HighValue(b[..|b| - 1]) + Bit(b[|b| - 1])
  }

  lemma {:induction false} HighValueBound(b: seq<bool>)
    ensures HighValue(b) < Pow2(|b|)
  {
    if b != [] { HighValueBound(b[..|b| - 1]); }
  }

  lemma {:induction false} HighValueOfBits(n: nat, len: nat)
    requires n < Pow2(len)
    ensures HighValue(HighBits(n, len)) == n
  {
    if len > 0 {
      var init := HighBits(n / 2, len - 1);
      HighValueOfBits(n / 2, len - 1);
      hide HighBits, Pow2;
      HighBitsInit(n, len);
      assert HighBits(n, len)[..len - 1] == init;
    }
  }

  lemma {:induction false} HighBitsOfValue(b: seq<bool>)
    ensures HighBits(HighValue(b), |b|) == b
  {
    if b != [] {
      HighBitsOfValue(b[..|b| - 1]);
      HalfOf(HighValue(b[..|b| - 1]), b[|b| - 1]);
    }
  }

  lemma HighValueInit(b: seq<bool>)
    requires b != []
    ensures HighValue(b[..|b| - 1]) == HighValue(b) / 2
  {}

  // ---------- Which bit stands where ----------

  lemma Doubled(p: nat, x: nat)
    ensures (2 * p) * x == 2 * (p * x)
  {}

  lemma HalfThenDivide(n: nat, p: nat)
    requires p > 0
    ensures n / 2 / p == n / (2 * p)
  {
    var h, b := n / 2, n % 2;
    var x, y := h / p, h % p;
    assert h == p * x + y;
    Doubled(p, x);
    DivModUnique(n, 2 * p, x, 2 * y + b);
  }

  /** Place i of the low-first bits has weight 2^i. */
  lemma {:induction false} LowBitAt(n: nat, len: nat, i: nat)
    requires i < len
    ensures LowBits(n, len)[i] <==> n / Pow2(i) % 2 == 1
  {
    if i > 0 {
      assert Pow2(i) == 2 * Pow2(i - 1);
      assert LowBits(n, len)[i] == LowBits(n / 2, len - 1)[i - 1];
      hide Pow2, LowBits;
      LowBitAt(n / 2, len - 1, i - 1);
      HalfThenDivide(n, Pow2(i - 1));
    }
  }

  /** Place i of the high-first bits has weight 2^(len - 1 - i). */
  lemma {:induction false} HighBitAt(n: nat, len: nat, i: nat)
    requires i < len
    ensures HighBits(n, len)[i] <==> n / Pow2(len - 1 - i) % 2 == 1
  {
    if i < len - 1 {
      assert Pow2(len - 1 - i) == 2 * Pow2(len - 2 - i);
      assert HighBits(n, len)[i] == HighBits(n / 2, len - 1)[i];
      hide Pow2, HighBits;
      HighBitAt(n / 2, len - 1, i);
      HalfThenDivide(n, Pow2(len - 2 - i));
    }
  }
}
