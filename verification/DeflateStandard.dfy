/** The codes of the deflate format in the closed form of RFC 1951 section 3.2, and a stream with known content. */
module DeflateStandard {
  import opened Bits
  import opened Wrappers
  import opened Inflate
  import opened DeflateFormat
  import opened Matcher
  import opened Zlib

  // ---------- Length and distance codes (section 3.2.5) ----------

  /** Eight lengths with a code each, then four codes for every number of extra bits; 258 has its own. */
  lemma LengthCodes(k: nat)
    requires k < 29
    ensures k < 8 ==> LengthBase(k) == 3 + k && LengthExtra(k) == 0
    ensures 8 <= k < 28 ==> LengthExtra(k) == k / 4 - 1 && LengthBase(k) == 3 + (4 + k % 4) * Pow2(k / 4 - 1)
    ensures k == 28 ==> LengthBase(k) == 258 && LengthExtra(k) == 0
  {
    SmallPowers();
    hide Pow2;
    assert k == 0 || k == 1 || k == 2 || k == 3 || k == 4 || k == 5 || k == 6 || k == 7 || k == 8 || k == 9
      || k == 10 || k == 11 || k == 12 || k == 13 || k == 14 || k == 15 || k == 16 || k == 17 || k == 18
      || k == 19 || k == 20 || k == 21 || k == 22 || k == 23 || k == 24 || k == 25 || k == 26 || k == 27
      || k == 28;
  }

  /** Two distances with a code each, then two codes for every number of extra bits. */
  lemma DistanceCodes(d: nat)
    requires d < 30
    ensures d < 2 ==> DistanceBase(d) == 1 + d && DistanceExtra(d) == 0
    ensures d >= 2 ==> DistanceExtra(d) == d / 2 - 1 && DistanceBase(d) == 1 + (2 + d % 2) * Pow2(d / 2 - 1)
  {
    SmallPowers();
    hide Pow2;
    assert d == 0 || d == 1 || d == 2 || d == 3 || d == 4 || d == 5 || d == 6 || d == 7 || d == 8 || d == 9
      || d == 10 || d == 11 || d == 12 || d == 13 || d == 14 || d == 15 || d == 16 || d == 17 || d == 18
      || d == 19 || d == 20 || d == 21 || d == 22 || d == 23 || d == 24 || d == 25 || d == 26 || d == 27
      || d == 28 || d == 29;
  }

  // ---------- The fixed code (section 3.2.6) ----------

  /** The code ranges of the standard, first and last; inside a range codes ascend by one. */
  lemma FixedCodes(n: nat)
    requires n < 288
    ensures SymbolCode(0) == (0x30, 8) && SymbolCode(143) == (0xBF, 8)
    ensures SymbolCode(144) == (0x190, 9) && SymbolCode(255) == (0x1FF, 9)
    ensures SymbolCode(256) == (0, 7) && SymbolCode(279) == (0x17, 7)
    ensures SymbolCode(280) == (0xC0, 8) && SymbolCode(287) == (0xC7, 8)
    ensures n != 143 && n != 255 && n != 279 && n != 287 ==>
      SymbolCode(n + 1) == (SymbolCode(n).0 + 1, SymbolCode(n).1)
  {}

  // ---------- The checksum (RFC 1950 section 8.2) ----------

  function Sum(data: seq<Byte>): nat {
    if data == [] then 0 else Sum(data[..|data| - 1]) + data[|data| - 1]
  }

  /** Every byte weighted by how many prefixes it belongs to. */
  function PrefixSums(data: seq<Byte>): nat {
    if data == [] then 0 else PrefixSums(data[..|data| - 1]) + Sum(data)
  }

  lemma Remainders(a: nat, b: nat, c: nat)
    requires a == b % 65521
    ensures (a + c) % 65521 == (b + c) % 65521
  {
    var q := b / 65521;
    assert b == 65521 * q + a;
    assert b + c == 65521 * q + (a + c);
    MultipleGone(q, a + c);
  }

  lemma {:induction false} MultipleGone(q: nat, x: nat)
    ensures (65521 * q + x) % 65521 == x % 65521
  {
    if q > 0 { MultipleGone(q - 1, x); }
  }

  /** The two sums are 1 plus all bytes, and all those sums, modulo the largest prime below 65536. */
  lemma {:induction false} AdlerIsSums(data: seq<Byte>)
    ensures AdlerLow(data) == (1 + Sum(data)) % 65521
    ensures AdlerHigh(data) == (|data| + PrefixSums(data)) % 65521
  {
    if data != [] {
      var init, last := data[..|data| - 1], data[|data| - 1];
      AdlerIsSums(init);
      Remainders(AdlerLow(init), 1 + Sum(init), last);
      Remainders(AdlerHigh(init), |init| + PrefixSums(init), AdlerLow(data));
      Remainders(AdlerLow(data), 1 + Sum(data), |init| + PrefixSums(init));
    }
  }

  // ---------- The search ----------

  /** Candidates are at most 32767 bytes back, and a chain keeps at most twice the quality. */
  lemma WindowAndChains(p: nat, i: nat, chain: seq<nat>, quality: nat)
    requires p <= i && quality > 0 && |chain| <= 2 * quality
    ensures InWindow(p, i) <==> i - p <= 32767
    ensures var r := Pushed(chain, quality, i); |r| <= 2 * quality && r[|r| - 1] == i
  {}

  // ---------- Bits of small numbers ----------

  lemma LowEight(n: nat)
    ensures LowBits(n, 8) ==
      [n % 2 == 1, n / 2 % 2 == 1, n / 4 % 2 == 1, n / 8 % 2 == 1, n / 16 % 2 == 1, n / 32 % 2 == 1,
       n / 64 % 2 == 1, n / 128 % 2 == 1]
  {
    SmallPowers();
    hide Pow2, LowBits;
    LowBitAt(n, 8, 0);
    LowBitAt(n, 8, 1);
    LowBitAt(n, 8, 2);
    LowBitAt(n, 8, 3);
    LowBitAt(n, 8, 4);
    LowBitAt(n, 8, 5);
    LowBitAt(n, 8, 6);
    LowBitAt(n, 8, 7);
  }

  lemma LowTwo(n: nat)
    ensures LowBits(n, 2) ==
      [n % 2 == 1, n / 2 % 2 == 1]
  {
    SmallPowers();
    hide Pow2, LowBits;
    LowBitAt(n, 2, 0);
    LowBitAt(n, 2, 1);
  }

  lemma LowOne(n: nat)
    ensures LowBits(n, 1) ==
      [n % 2 == 1]
  {
    SmallPowers();
    hide Pow2, LowBits;
    LowBitAt(n, 1, 0);
  }

  lemma HighFive(n: nat)
    ensures HighBits(n, 5) ==
      [n / 16 % 2 == 1, n / 8 % 2 == 1, n / 4 % 2 == 1, n / 2 % 2 == 1, n % 2 == 1]
  {
    SmallPowers();
    hide Pow2, HighBits;
    HighBitAt(n, 5, 0);
    HighBitAt(n, 5, 1);
    HighBitAt(n, 5, 2);
    HighBitAt(n, 5, 3);
    HighBitAt(n, 5, 4);
  }

  lemma HighSeven(n: nat)
    ensures HighBits(n, 7) ==
      [n / 64 % 2 == 1, n / 32 % 2 == 1, n / 16 % 2 == 1, n / 8 % 2 == 1, n / 4 % 2 == 1, n / 2 % 2 == 1,
       n % 2 == 1]
  {
    SmallPowers();
    hide Pow2, HighBits;
    HighBitAt(n, 7, 0);
    HighBitAt(n, 7, 1);
    HighBitAt(n, 7, 2);
    HighBitAt(n, 7, 3);
    HighBitAt(n, 7, 4);
    HighBitAt(n, 7, 5);
    HighBitAt(n, 7, 6);
  }

  lemma HighEight(n: nat)
    ensures HighBits(n, 8) ==
      [n / 128 % 2 == 1, n / 64 % 2 == 1, n / 32 % 2 == 1, n / 16 % 2 == 1, n / 8 % 2 == 1, n / 4 % 2 == 1,
       n / 2 % 2 == 1, n % 2 == 1]
  {
    SmallPowers();
    hide Pow2, HighBits;
    HighBitAt(n, 8, 0);
    HighBitAt(n, 8, 1);
    HighBitAt(n, 8, 2);
    HighBitAt(n, 8, 3);
    HighBitAt(n, 8, 4);
    HighBitAt(n, 8, 5);
    HighBitAt(n, 8, 6);
    HighBitAt(n, 8, 7);
  }

  lemma HighNine(n: nat)
    ensures HighBits(n, 9) ==
      [n / 256 % 2 == 1, n / 128 % 2 == 1, n / 64 % 2 == 1, n / 32 % 2 == 1, n / 16 % 2 == 1, n / 8 % 2 == 1,
       n / 4 % 2 == 1, n / 2 % 2 == 1, n % 2 == 1]
  {
    SmallPowers();
    hide Pow2, HighBits;
    HighBitAt(n, 9, 0);
    HighBitAt(n, 9, 1);
    HighBitAt(n, 9, 2);
    HighBitAt(n, 9, 3);
    HighBitAt(n, 9, 4);
    HighBitAt(n, 9, 5);
    HighBitAt(n, 9, 6);
    HighBitAt(n, 9, 7);
    HighBitAt(n, 9, 8);
  }

  // ---------- A known stream ----------

  /** Literals 97 and 200, eleven bytes from distance two, twenty from distance eleven. */
  const KNOWN_BYTES: seq<Byte> := [75, 60, 129, 4, 177, 49, 1]
  const KNOWN_TEXT: seq<Byte> :=
    [97, 200, 97, 200, 97, 200, 97, 200, 97, 200, 97, 200, 97, 97, 200, 97, 200, 97, 200, 97, 200, 97, 200, 97,
     97, 200, 97, 200, 97, 200, 97, 200, 97]

  lemma Byte75()
    ensures ByteBits([75]) == [true, true, false, true, false, false, true, false]
  {
    hide LowBits, ByteBits;
    LowEight(75);
    ByteBitsOne(75);
  }

  lemma Byte60()
    ensures ByteBits([60]) == [false, false, true, true, true, true, false, false]
  {
    hide LowBits, ByteBits;
    LowEight(60);
    ByteBitsOne(60);
  }

  lemma Byte129()
    ensures ByteBits([129]) == [true, false, false, false, false, false, false, true]
  {
    hide LowBits, ByteBits;
    LowEight(129);
    ByteBitsOne(129);
  }

  lemma Byte4()
    ensures ByteBits([4]) == [false, false, true, false, false, false, false, false]
  {
    hide LowBits, ByteBits;
    LowEight(4);
    ByteBitsOne(4);
  }

  lemma Byte177()
    ensures ByteBits([177]) == [true, false, false, false, true, true, false, true]
  {
    hide LowBits, ByteBits;
    LowEight(177);
    ByteBitsOne(177);
  }

  lemma Byte49()
    ensures ByteBits([49]) == [true, false, false, false, true, true, false, false]
  {
    hide LowBits, ByteBits;
    LowEight(49);
    ByteBitsOne(49);
  }

  lemma Byte1()
    ensures ByteBits([1]) == [true, false, false, false, false, false, false, false]
  {
    hide LowBits, ByteBits;
    LowEight(1);
    ByteBitsOne(1);
  }

  lemma BytesJoin(a: seq<Byte>, b: Byte, bits: seq<bool>, more: seq<bool>)
    requires ByteBits(a) == bits && ByteBits([b]) == more
    ensures ByteBits(a + [b]) == bits + more
  {
    ByteBitsConcat(a, [b]);
  }

  /** The bytes of the stream, least significant bit first. */
  lemma KnownBytesAsBits()
    ensures ByteBits(KNOWN_BYTES) ==
      [true, true, false, true, false, false, true, false]
      + [false, false, true, true, true, true, false, false]
      + [true, false, false, false, false, false, false, true]
      + [false, false, true, false, false, false, false, false]
      + [true, false, false, false, true, true, false, true]
      + [true, false, false, false, true, true, false, false]
      + [true, false, false, false, false, false, false, false]
  {
    hide ByteBits;
    Byte75();
    Byte60();
    Byte129();
    Byte4();
    Byte177();
    Byte49();
    Byte1();
    BytesJoin([75], 60, ByteBits([75]), ByteBits([60]));
    assert [75] + [60] == [75, 60];
    BytesJoin([75, 60], 129, ByteBits([75, 60]), ByteBits([129]));
    assert [75, 60] + [129] == [75, 60, 129];
    BytesJoin([75, 60, 129], 4, ByteBits([75, 60, 129]), ByteBits([4]));
    assert [75, 60, 129] + [4] == [75, 60, 129, 4];
    BytesJoin([75, 60, 129, 4], 177, ByteBits([75, 60, 129, 4]), ByteBits([177]));
    assert [75, 60, 129, 4] + [177] == [75, 60, 129, 4, 177];
    BytesJoin([75, 60, 129, 4, 177], 49, ByteBits([75, 60, 129, 4, 177]), ByteBits([49]));
    assert [75, 60, 129, 4, 177] + [49] == [75, 60, 129, 4, 177, 49];
    BytesJoin([75, 60, 129, 4, 177, 49], 1, ByteBits([75, 60, 129, 4, 177, 49]), ByteBits([1]));
    assert [75, 60, 129, 4, 177, 49] + [1] == [75, 60, 129, 4, 177, 49, 1];
  }

  lemma KnownSymbols()
    ensures SymbolBits(97) == [true, false, false, true, false, false, false, true]
    ensures SymbolBits(200) == [true, true, true, false, false, true, false, false, false]
    ensures SymbolBits(265) == [false, false, false, true, false, false, true]
    ensures SymbolBits(269) == [false, false, false, true, true, false, true]
    ensures SymbolBits(256) == [false, false, false, false, false, false, false]
  {
    hide HighBits;
    HighEight(145);
    HighNine(456);
    HighSeven(9);
    HighSeven(13);
    HighSeven(0);
  }

  lemma KnownCodes()
    ensures LengthBase(8) == 11 && LengthExtra(8) == 1 && DistanceBase(1) == 2 && DistanceExtra(1) == 0
    ensures LengthBase(12) == 19 && LengthExtra(12) == 2 && DistanceBase(6) == 9 && DistanceExtra(6) == 2
    ensures InLengthCode(8, 11) && InDistanceCode(1, 2) && InLengthCode(12, 20) && InDistanceCode(6, 11)
  {
    SmallPowers();
  }

  lemma FirstMatch()
    ensures InLengthCode(8, 11) && InDistanceCode(1, 2)
    ensures MatchBits(11, 8, 2, 1) ==
      [false, false, false, true, false, false, true] + [false] + [false, false, false, false, true]
  {
    hide Pow2, HighBits, SymbolBits, LengthBase, LengthExtra, DistanceBase, DistanceExtra;
    KnownCodes();
    KnownSymbols();
    HighFive(1);
    LowOne(0);
    assert LowBits(0, 0) == [];
    hide LowBits;
  }

  lemma SecondMatch()
    ensures InLengthCode(12, 20) && InDistanceCode(6, 11)
    ensures MatchBits(20, 12, 11, 6) ==
      [false, false, false, true, true, false, true] + [true, false]
      + ([false, false, true, true, false] + [false, true])
  {
    hide Pow2, HighBits, SymbolBits, LengthBase, LengthExtra, DistanceBase, DistanceExtra, LowBits;
    KnownCodes();
    KnownSymbols();
    HighFive(6);
    LowTwo(1);
    LowTwo(2);
  }

  /** The tokens of the known block as bits. */
  function KnownBlock(): seq<bool> {
    KnownCodes();
    SymbolBits(97) + SymbolBits(200) + MatchBits(11, 8, 2, 1) + MatchBits(20, 12, 11, 6)
  }

  /** The bits of the tokens and of the bytes are the same. */
  lemma SameBits(a: seq<bool>, b: seq<bool>, first: seq<bool>, second: seq<bool>, end: seq<bool>)
    requires a == [true, false, false, true, false, false, false, true]
    requires b == [true, true, true, false, false, true, false, false, false]
    requires first == [false, false, false, true, false, false, true] + [false] + [false, false, false, false, true]
    requires second == [false, false, false, true, true, false, true] + [true, false]
                       + ([false, false, true, true, false] + [false, true])
    requires end == [false, false, false, false, false, false, false]
    ensures [true, true, false] + (a + b + first + second) + end ==
      [true, true, false, true, false, false, true, false]
      + [false, false, true, true, true, true, false, false]
      + [true, false, false, false, false, false, false, true]
      + [false, false, true, false, false, false, false, false]
      + [true, false, false, false, true, true, false, true]
      + [true, false, false, false, true, true, false, false]
      + [true, false, false, false, false, false, false, false]
  {}

  lemma KnownBitsAreBlock()
    ensures [true, true, false] + KnownBlock() + SymbolBits(256) == ByteBits(KNOWN_BYTES)
  {
    hide SymbolBits, MatchBits, ByteBits, InLengthCode, InDistanceCode;
    KnownBytesAsBits();
    KnownSymbols();
    FirstMatch();
    SecondMatch();
    SameBits(SymbolBits(97), SymbolBits(200), MatchBits(11, 8, 2, 1), MatchBits(20, 12, 11, 6), SymbolBits(256));
  }

  lemma KnownRepeats()
    ensures KNOWN_TEXT[..2] == [97, 200] && KNOWN_TEXT[..33] == KNOWN_TEXT
    ensures KNOWN_TEXT[0..11] == KNOWN_TEXT[2..13] && KNOWN_TEXT[2..22] == KNOWN_TEXT[13..33]
  {
    var t := KNOWN_TEXT;
    forall i | 0 <= i < 31
      ensures i < 11 ==> t[i] == t[i + 2]
      ensures 2 <= i < 22 ==> t[i] == t[i + 11]
    {
      KnownTextAt(i);
      if i < 11 { KnownTextAt(i + 2); }
      if i < 22 { KnownTextAt(i + 11); }
    }
    assert forall i :: 0 <= i < 11 ==> t[0..11][i] == t[2..13][i];
    assert forall i :: 0 <= i < 20 ==> t[2..22][i] == t[13..33][i];
  }

  lemma KnownTextAt(i: nat)
    requires i < 33
    ensures KNOWN_TEXT[i] == if (if i < 13 then i else if i < 24 then i - 11 else i) % 2 == 0 then 97 else 200
  {
    assert i == 0 || i == 1 || i == 2 || i == 3 || i == 4 || i == 5 || i == 6 || i == 7 || i == 8 || i == 9
      || i == 10 || i == 11 || i == 12 || i == 13 || i == 14 || i == 15 || i == 16 || i == 17 || i == 18
      || i == 19 || i == 20 || i == 21 || i == 22 || i == 23 || i == 24 || i == 25 || i == 26 || i == 27
      || i == 28 || i == 29 || i == 30 || i == 31 || i == 32;
  }

  lemma KnownEmits()
    ensures Emits(KnownBlock(), KNOWN_TEXT)
  {
    hide SymbolBits, MatchBits, Emits, CopyMatch, InLengthCode, InDistanceCode;
    KnownCodes();
    KnownRepeats();
    var t := KNOWN_TEXT;
    EmitsNothing();
    EmitLiteral([], [], 97);
    assert [] + SymbolBits(97) == SymbolBits(97) && [] + [97] == [97];
    EmitLiteral(SymbolBits(97), [97], 200);
    assert [97] + [200] == t[..2];
    var literals := SymbolBits(97) + SymbolBits(200);
    CopyMatchIsData(t, 2, 11, 2);
    EmitMatch(literals, t[..2], 11, 8, 2, 1);
    CopyMatchIsData(t, 13, 20, 11);
    EmitMatch(literals + MatchBits(11, 8, 2, 1), t[..13], 20, 12, 11, 6);
  }

  /** A whole stream: header, one block of the fixed code with overlapping matches, checksum. */
  lemma KnownStream()
    ensures ZlibDecode([0x78, 0x5E] + KNOWN_BYTES + Adler(KNOWN_TEXT)) == Some(KNOWN_TEXT)
  {
    hide ZlibDecode, Adler, Emits, KnownBlock, SymbolBits, ByteBits;
    var out := [0x78, 0x5E] + KNOWN_BYTES;
    assert out[2..] == KNOWN_BYTES;
    KnownEmits();
    KnownBitsAreBlock();
    FixedStreamDecodes(out, KnownBlock(), KNOWN_TEXT);
  }

  lemma AdlerStep(data: seq<Byte>, b: Byte)
    ensures AdlerLow(data + [b]) == (AdlerLow(data) + b) % 65521
    ensures AdlerHigh(data + [b]) == (AdlerHigh(data) + AdlerLow(data + [b])) % 65521
  {
    assert (data + [b])[..|data|] == data;
  }

  lemma SumsOfThree(one: seq<Byte>, two: seq<Byte>, three: seq<Byte>)
    requires one == [] + [0x61] && two == one + [0x62] && three == two + [0x63]
    ensures AdlerLow(three) == 295 && AdlerHigh(three) == 589
  {
    assert AdlerLow([]) == 1 && AdlerHigh([]) == 0;
    hide AdlerLow, AdlerHigh;
    AdlerStep([], 0x61);
    AdlerStep(one, 0x62);
    AdlerStep(two, 0x63);
  }

  lemma AdlerOfThree()
    ensures Adler([0x61, 0x62, 0x63]) == [0x02, 0x4D, 0x01, 0x27]
  {
    hide AdlerLow, AdlerHigh;
    SumsOfThree([0x61], [0x61, 0x62], [0x61, 0x62, 0x63]);
  }

  lemma StoredThree()
    ensures StoredBytes([0x61, 0x62, 0x63], 0) == [0x01, 0x03, 0x00, 0xFC, 0xFF, 0x61, 0x62, 0x63]
  {
    var data: seq<Byte> := [0x61, 0x62, 0x63];
    assert BlockHeader(data, 0) == [0x01, 0x03, 0x00, 0xFC, 0xFF];
    hide BlockHeader;
    assert StoredBytes(data, 3) == [] && data[0..3] == data;
  }

  /** "abc" in one stored block. */
  lemma KnownStoredStream()
    ensures ZlibDecode([0x78, 0x5E, 0x01, 0x03, 0x00, 0xFC, 0xFF, 0x61, 0x62, 0x63, 0x02, 0x4D, 0x01, 0x27])
         == Some([0x61, 0x62, 0x63])
  {
    hide ZlibDecode, Adler, StoredBytes;
    AdlerOfThree();
    StoredThree();
    StoredStreamDecodes([0x78, 0x5E], [0x61, 0x62, 0x63]);
    assert [0x78, 0x5E] + [0x01, 0x03, 0x00, 0xFC, 0xFF, 0x61, 0x62, 0x63] + [0x02, 0x4D, 0x01, 0x27]
      == [0x78, 0x5E, 0x01, 0x03, 0x00, 0xFC, 0xFF, 0x61, 0x62, 0x63, 0x02, 0x4D, 0x01, 0x27];
  }
}
