/** What the compressor writes: the bits of each token, and the proof that a decoder reads the
    tokens back. */
module DeflateFormat {
  import opened Bits
  import opened BitReader
  import opened Inflate

  // ---------- Bits of a token ----------

  /** The fixed Huffman code of a symbol and its width. */
  function SymbolCode(n: nat): (nat, nat)
    requires n < 288
  {
    if n <= 143 then (0x30 + n, 8)
    else if n <= 255 then (0x190 + n - 144, 9)
    else if n <= 279 then (n - 256, 7)
    else (0xC0 + n - 280, 8)
  }

  function SymbolBits(n: nat): seq<bool>
    requires n < 288
  {
    HighBits(SymbolCode(n).0, SymbolCode(n).1)
  }

  /** The length code k covers `length`. */
  predicate InLengthCode(k: nat, length: nat) {
    k < 29 && LengthBase(k) <= length < LengthBase(k) + Pow2(LengthExtra(k))
  }

  predicate InDistanceCode(k: nat, distance: nat) {
    k < 30 && DistanceBase(k) <= distance < DistanceBase(k) + Pow2(DistanceExtra(k))
  }

  function MatchBits(length: nat, k: nat, distance: nat, d: nat): seq<bool>
    requires InLengthCode(k, length) && InDistanceCode(d, distance)
  {
    SymbolBits(257 + k) + LowBits(length - LengthBase(k), LengthExtra(k))
    + (HighBits(d, 5) + LowBits(distance - DistanceBase(d), DistanceExtra(d)))
  }

  /** The three code ranges are told apart by their first bits. */
  lemma ReadSymbolAt(bits: seq<bool>, p: nat, n: nat)
    requires n < 288 && StandsAt(bits, p, SymbolBits(n))
    ensures ReadSymbol(bits, p) == Parsed(n, p + |SymbolBits(n)|)
  {
    hide HighValue, HighBits, Pow2;
    var (code, len) := SymbolCode(n);
    assert Pow2(7) == 128 && Pow2(8) == 256 && Pow2(9) == 512 by { SmallPowers(); }
    ReadHighAt(bits, p, code, len);
    if len == 9 {
      var eight := bits[p..p + 8];
      HighValueInit(eight);
      assert eight[..7] == bits[p..p + 7];
    }
  }

  lemma SmallPowers()
    ensures Pow2(0) == 1 && Pow2(1) == 2 && Pow2(2) == 4 && Pow2(3) == 8 && Pow2(4) == 16 && Pow2(5) == 32
    ensures Pow2(6) == 64 && Pow2(7) == 128 && Pow2(8) == 256 && Pow2(9) == 512 && Pow2(10) == 1024
    ensures Pow2(11) == 2048 && Pow2(12) == 4096 && Pow2(13) == 8192 && Pow2(14) == 16384 && Pow2(16) == 65536
  {
    assert Pow2(4) == 16;
    assert Pow2(8) == 256;
    assert Pow2(12) == 4096;
  }

  lemma ReadDistanceAt(bits: seq<bool>, p: nat, distance: nat, d: nat)
    requires InDistanceCode(d, distance)
    requires StandsAt(bits, p, HighBits(d, 5) + LowBits(distance - DistanceBase(d), DistanceExtra(d)))
    ensures ReadDistance(bits, p) == Parsed(distance, p + 5 + DistanceExtra(d))
  {
    hide HighValue, HighBits, LowValue, LowBits, DistanceBase, DistanceExtra, Pow2;
    StandsAtSplit(bits, p, HighBits(d, 5), LowBits(distance - DistanceBase(d), DistanceExtra(d)));
    SmallPowers();
    ReadHighAt(bits, p, d, 5);
    ReadLowAt(bits, p + 5, distance - DistanceBase(d), DistanceExtra(d));
  }

  lemma ReadMatchAt(bits: seq<bool>, p: nat, length: nat, k: nat, distance: nat, d: nat)
    requires InLengthCode(k, length) && InDistanceCode(d, distance)
    requires StandsAt(bits, p, MatchBits(length, k, distance, d))
    ensures ReadToken(bits, p) == Parsed(Match(length, distance), p + |MatchBits(length, k, distance, d)|)
  {
    hide ReadSymbol, ReadDistance, HighBits, LowBits, SymbolBits, LowValue, HighValue, Pow2, StandsAt, LengthBase,
      LengthExtra, DistanceBase, DistanceExtra;
    var symbol, extra := SymbolBits(257 + k), LowBits(length - LengthBase(k), LengthExtra(k));
    var rest := HighBits(d, 5) + LowBits(distance - DistanceBase(d), DistanceExtra(d));
    StandsAtSplit(bits, p, symbol + extra, rest);
    StandsAtSplit(bits, p, symbol, extra);
    ReadSymbolAt(bits, p, 257 + k);
    ReadLowAt(bits, p + |symbol|, length - LengthBase(k), LengthExtra(k));
    ReadDistanceAt(bits, p + |symbol + extra|, distance, d);
  }

  // ---------- Prefixes of a block ----------

  /** Wherever `stream` stands in a fixed-Huffman block, the decoder has produced `out` behind it. */
  ghost predicate Emits(stream: seq<bool>, out: seq<Byte>) {
    forall bits: seq<bool>, p: nat :: StandsAt(bits, p, stream) ==>
      FixedBlock(bits, p, []) == FixedBlock(bits, p + |stream|, out)
  }

  lemma EmitsNothing()
    ensures Emits([], [])
  {}

  lemma EmitLiteral(stream: seq<bool>, out: seq<Byte>, b: Byte)
    requires Emits(stream, out)
    ensures Emits(stream + SymbolBits(b), out + [b])
  {
    hide SymbolBits, ReadSymbol;
    var next := stream + SymbolBits(b);
    forall bits: seq<bool>, p: nat | StandsAt(bits, p, next)
      ensures FixedBlock(bits, p, []) == FixedBlock(bits, p + |next|, out + [b])
    {
      StandsAtSplit(bits, p, stream, SymbolBits(b));
      ReadSymbolAt(bits, p + |stream|, b);
    }
  }

  lemma EmitMatch(stream: seq<bool>, out: seq<Byte>, length: nat, k: nat, distance: nat, d: nat)
    requires InLengthCode(k, length) && InDistanceCode(d, distance) && 1 <= distance <= |out|
    requires Emits(stream, out)
    ensures Emits(stream + MatchBits(length, k, distance, d), CopyMatch(out, length, distance))
  {
    hide MatchBits, ReadToken, CopyMatch, InLengthCode, InDistanceCode;
    var part := MatchBits(length, k, distance, d);
    var next := stream + part;
    forall bits: seq<bool>, p: nat | StandsAt(bits, p, next)
      ensures FixedBlock(bits, p, []) == FixedBlock(bits, p + |next|, CopyMatch(out, length, distance))
    {
      StandsAtSplit(bits, p, stream, part);
      ReadMatchAt(bits, p + |stream|, length, k, distance, d);
    }
  }

  /** A block that is closed with the end-of-block code decodes to what was emitted. */
  lemma EmitEnd(stream: seq<bool>, out: seq<Byte>, bits: seq<bool>, p: nat)
    requires Emits(stream, out) && StandsAt(bits, p, stream + SymbolBits(256))
    ensures FixedBlock(bits, p, []) == Parsed(out, p + |stream| + 7)
  {
    hide ReadSymbol, HighBits;
    StandsAtSplit(bits, p, stream, SymbolBits(256));
    ReadSymbolAt(bits, p + |stream|, 256);
  }

  /** Copying from earlier data that agrees with what comes next yields that data. */
  lemma {:induction false} CopyMatchIsData(data: seq<Byte>, i: nat, length: nat, distance: nat)
    requires 1 <= distance <= i && i + length <= |data|
    requires data[i - distance..i - distance + length] == data[i..i + length]
    ensures CopyMatch(data[..i], length, distance) == data[..i + length]
    decreases length
  {
    if length > 0 {
      var a, b := data[i - distance..i - distance + length], data[i..i + length];
      assert a[0] == b[0] && a[1..] == b[1..];
      assert data[..i] + [data[i - distance]] == data[..i + 1];
      CopyMatchIsData(data, i + 1, length - 1, distance);
    }
  }
}
