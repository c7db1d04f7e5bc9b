/** Fixed values of the data encoding of ISO/IEC 18004: mode indicators, count fields, character values,
    pad codewords, the order of codewords and of bits, and the field of the error correction. */
module QrCoding {
  import opened Arithmetic
  import opened Bits
  import opened GaloisField
  import opened ReedSolomon
  import opened QrBits
  import opened QrBlocks
  import opened QrPatterns
  import opened QrSegment
  import opened QrEncode

  // ---------- Modes (tables 2 and 3) ----------

  lemma ModeIndicators()
    ensures HighBits(Numeric.ModeBits(), 4) == [false, false, false, true]
    ensures HighBits(Alphanumeric.ModeBits(), 4) == [false, false, true, false]
    ensures HighBits(Bytes.ModeBits(), 4) == [false, true, false, false]
    ensures HighBits(Kanji.ModeBits(), 4) == [true, false, false, false]
    ensures HighBits(Eci.ModeBits(), 4) == [false, true, true, true]
  {
    assert HighBits(0, 0) == [];
  }

  lemma CountWidths(version: nat)
    requires 1 <= version <= 40
    ensures Numeric.CharCountBits(version) == if version <= 9 then 10 else if version <= 26 then 12 else 14
    ensures Alphanumeric.CharCountBits(version) == if version <= 9 then 9 else if version <= 26 then 11 else 13
    ensures Bytes.CharCountBits(version) == if version <= 9 then 8 else 16
    ensures Kanji.CharCountBits(version) == if version <= 9 then 8 else if version <= 26 then 10 else 12
  {}

  // ---------- Character values (table 5) ----------

  const SIGNS := " $%*+-./:"

  lemma CharsetSplit() returns (digits: string, others: string)
    ensures digits == "0123456789" && ALPHANUMERIC_CHARSET == digits + others
  {
    digits, others := "0123456789", "ABCDEFGHIJKLMNOPQRSTUVWXYZ $%*+-./:";
  }

  lemma TenDigits(v: nat)
    requires v < 10
    ensures "0123456789"[v] as int == '0' as int + v
  {
    assert v == 0 || v == 1 || v == 2 || v == 3 || v == 4 || v == 5 || v == 6 || v == 7 || v == 8 || v == 9;
  }

  lemma Before(a: string, b: string, v: nat)
    requires v < |a|
    ensures (a + b)[v] == a[v]
  {}

  lemma DigitsAt(v: nat)
    requires v < 10
    ensures ALPHANUMERIC_CHARSET[v] as int == '0' as int + v
  {
    var digits, others := CharsetSplit();
    Before(digits, others, v);
    TenDigits(v);
  }

  lemma LettersAt(v: nat)
    requires 10 <= v < 36
    ensures ALPHANUMERIC_CHARSET[v] as int == 'A' as int + v - 10
  {
    assert v == 10 || v == 11 || v == 12 || v == 13 || v == 14 || v == 15 || v == 16 || v == 17
        || v == 18 || v == 19 || v == 20 || v == 21 || v == 22 || v == 23 || v == 24 || v == 25 || v == 26
        || v == 27 || v == 28 || v == 29 || v == 30 || v == 31 || v == 32 || v == 33 || v == 34 || v == 35;
  }

  lemma SignsAt(v: nat)
    requires 36 <= v < 45
    ensures ALPHANUMERIC_CHARSET[v] == SIGNS[v - 36]
  {
    assert v == 36 || v == 37 || v == 38 || v == 39 || v == 40 || v == 41 || v == 42 || v == 43 || v == 44;
  }

  lemma CharsetAt(v: nat)
    requires v < 45
    ensures v < 10 ==> ALPHANUMERIC_CHARSET[v] as int == '0' as int + v
    ensures 10 <= v < 36 ==> ALPHANUMERIC_CHARSET[v] as int == 'A' as int + v - 10
    ensures 36 <= v ==> ALPHANUMERIC_CHARSET[v] == SIGNS[v - 36]
  {
    if v < 10 {
      DigitsAt(v);
    } else if v < 36 {
      LettersAt(v);
    } else {
      SignsAt(v);
    }
  }

  /** Digits, upper-case letters and nine signs, numbered in this order; nothing else. */
  lemma CharacterValues(c: char)
    ensures IsAlphanumericChar(c) <==> '0' <= c <= '9' || 'A' <= c <= 'Z' || c in SIGNS
    ensures '0' <= c <= '9' ==> CharValue(c) == c as int - '0' as int
    ensures 'A' <= c <= 'Z' ==> CharValue(c) == c as int - 'A' as int + 10
    ensures c in SIGNS ==> 36 <= CharValue(c) < 45 && SIGNS[CharValue(c) - 36] == c
  {
    hide FindChar;
    if IsAlphanumericChar(c) {
      CharsetAt(CharValue(c));
    }
    if '0' <= c <= '9' {
      CharsetAt(c as int - '0' as int);
    } else if 'A' <= c <= 'Z' {
      CharsetAt(c as int - 'A' as int + 10);
    } else if c in SIGNS {
      var k :| 0 <= k < |SIGNS| && SIGNS[k] == c;
      CharsetAt(k + 36);
    }
  }

  // ---------- Pad codewords and the bits of codewords ----------

  lemma PadCodewords()
    ensures PadBytes(2, true) == [true, true, true, false, true, true, false, false,
                                  false, false, false, true, false, false, false, true]
  {
    PadOctets();
    hide HighBits;
    assert PadBytes(0, true) == [];
    assert PadBytes(1, false) == HighBits(0x11, 8) + PadBytes(0, true);
  }

  lemma PadOctets()
    ensures HighBits(0xEC, 8) == [true, true, true, false, true, true, false, false]
    ensures HighBits(0x11, 8) == [false, false, false, true, false, false, false, true]
  {
    assert HighBits(0, 0) == [];
  }

  /** Four zeros, or what is left of the capacity; zeros to the next byte boundary; then pad codewords. */
  lemma PaddingShape(used: nat, capacity: nat) returns (z: nat)
    requires used <= capacity && capacity % 8 == 0
    ensures z <= capacity - used && (z >= 4 || z == capacity - used) && z < 12 && (used + z) % 8 == 0
    ensures (forall k :: 0 <= k < z ==> !Padding(used, capacity)[k])
    ensures Padding(used, capacity)[z..] == PadBytes((capacity - used - z) / 8, true)
  {
    var terminator := Min(4, capacity - used);
    var align := ToBoundary(used + terminator);
    BoundaryBefore(used + terminator, capacity);
    z := terminator + align;
    ZeroBits(terminator);
    ZeroBits(align);
  }

  lemma {:induction false} ZeroBits(n: nat)
    ensures forall k :: 0 <= k < n ==> !HighBits(0, n)[k]
  {
    if n > 0 { ZeroBits(n - 1); }
  }

  lemma CodewordBitsInOrder()
    ensures CodewordBits([0xEC, 0x11]) == [true, true, true, false, true, true, false, false,
                                           false, false, false, true, false, false, false, true]
  {}

  // ---------- The field of the error correction ----------

  lemma DoubledByPolynomial(x: bv8)
    ensures Mul(x, 2) == (if x < 128 then x << 1 else (x << 1) ^ 0x1D) && Mul(x, 1) == x
  {}

  /** The first root of a generator is 1, the second 2: x + 1, then (x + 1)(x + 2) = x^2 + 3x + 2. */
  lemma FirstGenerators()
    ensures Generator(1) == [1, 1] && Generator(2) == [1, 3, 2]
  {
    assert Generator(0) == [1] && Pow(2, 0) == 1;
    assert Pow(2, 1) == 2 by { assert Mul(1, 2) == 2; }
    assert Generator(1) == [1, 1];
  }

  // ---------- The order of the codewords ----------

  /** Where a column starts. */
  function ColumnStart(l: Layout, c: nat): int
    requires l.Valid()
  {
    if c <= l.ShortData() then c * l.numBlocks else (c - 1) * l.numBlocks + (l.numBlocks - l.NumShort())
  }

  lemma InColumn(l: Layout, j: nat, c: nat)
    requires l.Valid() && l.Written(j, c)
    ensures l.Before(j, c) == ColumnStart(l, c) + (if c == l.ShortData() then j - l.NumShort() else j)
    ensures ColumnStart(l, c) <= l.Before(j, c) < ColumnStart(l, c + 1)
  {
    MulNext(c, l.numBlocks);
    if c > 0 { MulNext(c - 1, l.numBlocks); }
  }

  lemma ColumnsGrow(l: Layout, c: nat, d: nat)
    requires l.Valid() && c <= d
    ensures ColumnStart(l, c) <= ColumnStart(l, d)
  {
    MulMonotone(c, d, l.numBlocks);
    if c > 0 { MulMonotone(c - 1, d - 1, l.numBlocks); }
    if 0 < d && c < d { MulMonotone(c, d - 1, l.numBlocks); }
  }

  /** Column by column, and in a column block by block. */
  lemma ColumnsInOrder(l: Layout, j: nat, c: nat, k: nat, d: nat)
    requires l.Valid() && l.Written(j, c) && l.Written(k, d)
    ensures l.Before(j, c) < l.Before(k, d) <==> c < d || (c == d && j < k)
  {
    InColumn(l, j, c);
    InColumn(l, k, d);
    hide ColumnStart, l.Before;
    if c < d {
      ColumnsGrow(l, c + 1, d);
    } else if d < c {
      ColumnsGrow(l, d + 1, c);
    }
  }

  /** Symbol 5-Q: two blocks of fifteen data codewords, then two of sixteen. */
  lemma ShortBlocksFirst()
    ensures var l := Layout(4, 18, 134);
      l.Valid() && l.DataLength(0) == l.DataLength(1) == 15 && l.DataLength(2) == l.DataLength(3) == 16
  {}

  lemma LevelsInOrder()
    ensures Level(Low) < Level(Medium) < Level(Quartile) < Level(High)
  {}
}
