/** The whole zlib stream: fixed block or stored blocks, then the checksum, and the proof that a
    decoder gives back the input. */
module Zlib {
  import opened Bits
  import opened BitReader
  import opened Wrappers
  import opened Inflate
  import opened DeflateFormat
  import opened BitOutput
  import opened Deflate
  import opened Tokens

  /** `~x` on two's complement integers. */
  function Not(x: int): int { -x - 1 }

  // ---------- Stored blocks ----------

  function BlockLength(data: seq<Byte>, j: nat): (n: nat)
    requires j < |data|
    ensures 1 <= n <= 32767 && j + n <= |data|
  {
    if |data| - j > 32767 then 32767 else |data| - j
  }

  function BlockHeader(data: seq<Byte>, j: nat): seq<Byte>
    requires j < |data|
  {
    var n := BlockLength(data, j);
    [if |data| - j == n then 1 else 0, UChar(n), UChar(n / 256), UChar(Not(n)), UChar(Not(n) / 256)]
  }

  /** The stored blocks for the data from position j on. */
  function StoredBytes(data: seq<Byte>, j: nat): seq<Byte>
    requires j <= |data|
    decreases |data| - j
  {
    if j == |data| then []
    else
      var n := BlockLength(data, j);
      BlockHeader(data, j) + data[j..j + n] + StoredBytes(data, j + n)
  }

  method StoreBlocks(data: seq<Byte>, prefix: seq<Byte>) returns (out: seq<Byte>)
    ensures out == prefix + StoredBytes(data, 0)
  {
    out := prefix;
    var j := 0;
    while j < |data|
      invariant j <= |data|
      invariant prefix + StoredBytes(data, 0) == out + StoredBytes(data, j)
    {
      var blocklen := |data| - j;
      if blocklen > 32767 { blocklen := 32767; }
      ghost var before := out;
      out := out + [if |data| - j == blocklen then 1 else 0];
      out := out + [UChar(blocklen)];
      out := out + [UChar(blocklen / 256)];
      out := out + [UChar(Not(blocklen))];
      out := out + [UChar(Not(blocklen) / 256)];
      out := out + data[j..j + blocklen];
      assert out == before + (BlockHeader(data, j) + data[j..j + blocklen]);
      j := j + blocklen;
    }
  }

  lemma {:induction false} StoredSize(data: seq<Byte>, j: nat)
    requires j <= |data|
    ensures |StoredBytes(data, j)| == |data| - j + (|data| - j + 32766) / 32767 * 5
    decreases |data| - j
  {
    if j < |data| {
      StoredSize(data, j + BlockLength(data, j));
    }
  }

  // ---------- Bytes as bits ----------

  lemma {:induction false} ByteBitsConcat(a: seq<Byte>, b: seq<Byte>)
    ensures ByteBits(a + b) == ByteBits(a) + ByteBits(b)
  {
    hide LowBits;
    if b == [] {
      assert a + b == a;
    } else {
      var b', c := b[..|b| - 1], b[|b| - 1];
      ByteBitsConcat(a, b');
      assert a + b == (a + b') + [c];
      ByteBitsAppend(a + b', c);
    }
  }

  lemma ByteBitsAt(a: seq<Byte>, b: seq<Byte>, c: seq<Byte>)
    ensures StandsAt(ByteBits(a + b + c), 8 * |a|, ByteBits(b))
  {
    hide ByteBits;
    ByteBitsConcat(a + b, c);
    ByteBitsConcat(a, b);
  }

  lemma ByteBitsOne(b: Byte)
    ensures ByteBits([b]) == LowBits(b, 8)
  {
    assert ByteBits([]) == [];
    assert [b] == [] + [b];
    ByteBitsAppend([], b);
  }

  lemma {:induction false} ReadBytesAt(bits: seq<bool>, p: nat, bytes: seq<Byte>)
    requires StandsAt(bits, p, ByteBits(bytes))
    ensures ReadBytes(bits, p, |bytes|) == bytes
  {
    if bytes != [] {
      hide LowValue, LowBits;
      var init, last := bytes[..|bytes| - 1], bytes[|bytes| - 1];
      StandsAtSplit(bits, p, ByteBits(init), LowBits(last, 8));
      ReadBytesAt(bits, p, init);
      SmallPowers();
      LowValueOfBits(last, 8);
    }
  }

  /** Two bytes, low byte first, read as one 16-bit number. */
  lemma ReadWordAt(bits: seq<bool>, p: nat, low: Byte, high: Byte)
    requires StandsAt(bits, p, ByteBits([low, high]))
    ensures ReadLow(bits, p, 16) == Parsed(low + 256 * high, p + 16)
  {
    hide ByteBits, LowBits, LowValue, Pow2;
    SmallPowers();
    ByteBitsOne(low);
    ByteBitsOne(high);
    assert [low, high] == [low] + [high];
    ByteBitsConcat([low], [high]);
    LowBitsConcat(low, high, 8, 8);
    ReadLowAt(bits, p, low + 256 * high, 16);
  }

  // ---------- Stored blocks decode ----------

  lemma HeaderWords(n: nat)
    requires n <= 32767
    ensures UChar(n) + 256 * UChar(n / 256) == n
    ensures UChar(Not(n)) + 256 * UChar(Not(n) / 256) == 0xFFFF - n
  {}

  /** The pieces of a stored block, each where the reader looks for it. */
  lemma StoredBlockParts(bits: seq<bool>, p: nat, head: Byte, len: seq<Byte>, nlen: seq<Byte>, payload: seq<Byte>)
    requires |len| == |nlen| == 2
    requires StandsAt(bits, p, ByteBits([head] + len + nlen + payload))
    ensures StandsAt(bits, p, ByteBits([head])) && StandsAt(bits, p + 8, ByteBits(len))
    ensures StandsAt(bits, p + 24, ByteBits(nlen)) && StandsAt(bits, p + 40, ByteBits(payload))
  {
    hide ByteBits, StandsAt;
    assert [head] + len + nlen + payload == [head] + (len + (nlen + payload));
    ByteBitsConcat([head], len + (nlen + payload));
    ByteBitsConcat(len, nlen + payload);
    ByteBitsConcat(nlen, payload);
    StandsAtSplit(bits, p, ByteBits([head]), ByteBits(len + (nlen + payload)));
    StandsAtSplit(bits, p + 8, ByteBits(len), ByteBits(nlen + payload));
    StandsAtSplit(bits, p + 24, ByteBits(nlen), ByteBits(payload));
  }

  lemma StoredBlockAt(bits: seq<bool>, p: nat, data: seq<Byte>, j: nat)
    requires j < |data| && p % 8 == 0
    requires StandsAt(bits, p, ByteBits(BlockHeader(data, j) + data[j..j + BlockLength(data, j)]))
    ensures var n := BlockLength(data, j);
      p + 40 + 8 * n <= |bits| && ReadLow(bits, p + 1, 2) == Parsed(0, p + 3)
      && (bits[p] <==> j + n == |data|)
      && StoredBlock(bits, p + 3, data[..j]) == Parsed(data[..j + n], p + 40 + 8 * n)
  {
    hide ByteBits, ReadBytes, LowValue, ReadLow, LowBits;
    var n := BlockLength(data, j);
    var h := BlockHeader(data, j);
    var payload := data[j..j + n];
    var len, nlen := [UChar(n), UChar(n / 256)], [UChar(Not(n)), UChar(Not(n) / 256)];
    assert h + payload == [h[0]] + len + nlen + payload;
    StoredBlockParts(bits, p, h[0], len, nlen, payload);
    ByteBitsOne(h[0]);
    HeaderBits(bits, p, h[0]);
    ReadWordAt(bits, p + 8, UChar(n), UChar(n / 256));
    ReadWordAt(bits, p + 24, UChar(Not(n)), UChar(Not(n) / 256));
    HeaderWords(n);
    ReadBytesAt(bits, p + 40, payload);
    assert Align(p + 3) == p + 8;
    assert data[..j] + payload == data[..j + n];
  }

  lemma HeaderByte(b: Byte)
    requires b <= 1
    ensures LowBits(b, 8) == [b == 1] + (LowBits(0, 2) + LowBits(0, 5))
  {
    LowBitsZero(7);
    LowBitsZero(2);
    LowBitsZero(5);
  }

  lemma HeaderBits(bits: seq<bool>, p: nat, b: Byte)
    requires b <= 1 && StandsAt(bits, p, LowBits(b, 8))
    ensures ReadLow(bits, p + 1, 2) == Parsed(0, p + 3) && (bits[p] <==> b == 1)
  {
    hide LowBits, LowValue;
    HeaderByte(b);
    StandsAtSplit(bits, p, [b == 1], LowBits(0, 2) + LowBits(0, 5));
    assert bits[p] == bits[p..p + 1][0];
    StandsAtSplit(bits, p + 1, LowBits(0, 2), LowBits(0, 5));
    ReadLowAt(bits, p + 1, 0, 2);
  }

  lemma {:induction false} StoredDecodes(bits: seq<bool>, p: nat, data: seq<Byte>, j: nat)
    requires j < |data| && p % 8 == 0 && StandsAt(bits, p, ByteBits(StoredBytes(data, j)))
    ensures Blocks(bits, p, data[..j]) == Parsed(data, p + 8 * |StoredBytes(data, j)|)
    decreases |data| - j
  {
    hide ByteBits, StoredBlock, ReadLow, StandsAt, BlockHeader;
    var n := BlockLength(data, j);
    var head := BlockHeader(data, j) + data[j..j + n];
    ByteBitsConcat(head, StoredBytes(data, j + n));
    StandsAtSplit(bits, p, ByteBits(head), ByteBits(StoredBytes(data, j + n)));
    StoredBlockAt(bits, p, data, j);
    HeaderSize(data, j);
    if j + n < |data| {
      StoredDecodes(bits, p + 8 * |head|, data, j + n);
    } else {
      assert data[..j + n] == data;
    }
  }

  lemma HeaderSize(data: seq<Byte>, j: nat)
    requires j < |data|
    ensures |BlockHeader(data, j)| == 5
  {}

  // ---------- Checksum ----------

  lemma {:induction false} AdlerBounds(data: seq<Byte>)
    ensures AdlerLow(data) < 65521 && AdlerHigh(data) < 65521
  {}

  lemma AdlerAppend(data: seq<Byte>, k: nat)
    requires k < |data|
    ensures AdlerLow(data[..k + 1]) == Reduce(AdlerLow(data[..k]) + data[k])
    ensures AdlerHigh(data[..k + 1]) == Reduce(AdlerHigh(data[..k]) + AdlerLow(data[..k + 1]))
  {
    assert data[..k + 1][..k] == data[..k];
  }

  function Reduce(x: nat): nat { x % 65521 }

  /** Addition of unsigned 32-bit integers. */
  function Add32(x: nat, y: nat): nat { (x + y) % 0x1_0000_0000 }

  /** Reducing late or early gives the same sums. */
  lemma ReduceLate(t1: nat, t2: nat, b: Byte)
    ensures Reduce(t1 + b) == Reduce(Reduce(t1) + b)
    ensures Reduce(t2 + (t1 + b)) == Reduce(Reduce(t2) + Reduce(Reduce(t1) + b))
  {}

  lemma ReduceSmall(x: nat)
    requires x < 65521
    ensures Reduce(x) == x
  {}

  /** 1 + 2 + ... + i. */
  function Triangle(i: nat): nat { if i == 0 then 0 else Triangle(i - 1) + i }

  lemma {:induction false} TriangleClosed(i: nat)
    ensures 2 * Triangle(i) == i * (i + 1)
  {
    if i > 0 {
      TriangleClosed(i - 1);
      assert i * (i + 1) == (i - 1) * i + 2 * i;
    }
  }

  lemma {:induction false} TriangleMonotone(i: nat, j: nat)
    requires i <= j
    ensures Triangle(i) <= Triangle(j)
  {
    if i < j { TriangleMonotone(i, j - 1); }
  }

  /** The sums after i bytes that follow a reduction. */
  predicate Unreduced(i: nat, t1: nat, t2: nat) {
    t1 <= 65520 + 255 * i && t2 <= 65520 * (i + 1) + 255 * Triangle(i)
  }

  lemma NoWrap(i: nat, t1: nat, t2: nat, b: Byte)
    requires i < 5552 && Unreduced(i, t1, t2)
    ensures Unreduced(i + 1, t1 + b, t2 + (t1 + b))
    ensures Add32(t1, b) == t1 + b && Add32(t2, t1 + b) == t2 + (t1 + b)
  {
    TriangleMonotone(i + 1, 5552);
    TriangleClosed(5552);
  }

  /** Adds up a block of at most 5552 bytes before reducing; the 32-bit sums do not wrap. */
  method AdlerBlock(data: seq<Byte>, j: nat, blocklen: nat, s1: nat, s2: nat) returns (t1: nat, t2: nat)
    requires j + blocklen <= |data| && blocklen <= 5552
    requires s1 == AdlerLow(data[..j]) && s2 == AdlerHigh(data[..j])
    ensures t1 == AdlerLow(data[..j + blocklen]) && t2 == AdlerHigh(data[..j + blocklen])
  {
    AdlerBounds(data[..j]);
    t1, t2 := s1, s2;
    assert Unreduced(0, t1, t2);
    hide AdlerLow, AdlerHigh, Reduce, Add32, Unreduced;
    ReduceSmall(t1);
    ReduceSmall(t2);
    for i := 0 to blocklen
      invariant Unreduced(i, t1, t2)
      invariant Reduce(t1) == AdlerLow(data[..j + i]) && Reduce(t2) == AdlerHigh(data[..j + i])
    {
      AdlerAppend(data, j + i);
      ReduceLate(t1, t2, data[j + i]);
      NoWrap(i, t1, t2, data[j + i]);
      t1 := Add32(t1, data[j + i]);
      t2 := Add32(t2, t1);
    }
    t1 := Reduce(t1);
    t2 := Reduce(t2);
  }

  method ComputeAdler(data: seq<Byte>) returns (sum: seq<Byte>)
    ensures sum == Adler(data)
  {
    var s1, s2 := 1, 0;
    var blocklen: nat := |data| % 5552;
    var j := 0;
    assert data[..0] == [];
    assert AdlerLow([]) == 1 && AdlerHigh([]) == 0;
    ghost var full: nat := |data| / 5552;
    hide AdlerLow, AdlerHigh, UChar;
    while j < |data|
      invariant j <= |data| && blocklen <= 5552
      invariant j < |data| ==> |data| - j == blocklen + 5552 * full
      invariant s1 == AdlerLow(data[..j]) && s2 == AdlerHigh(data[..j])
      decreases |data| - j, 5552 - blocklen
    {
      s1, s2 := AdlerBlock(data, j, blocklen, s1, s2);
      j := j + blocklen;
      blocklen := 5552;
      full := if full > 0 then full - 1 else 0;
    }
    assert data[..j] == data;
    sum := [UChar(s2 / 256), UChar(s2), UChar(s1 / 256), UChar(s1)];
  }

  // ---------- The whole stream ----------

  predicate HasHeader(out: seq<Byte>) {
    |out| >= 2 && out[0] == 0x78 && out[1] == 0x5e
  }

  /** The decoder's view of a stream whose blocks end on the last body byte. */
  lemma BodyDecodes(out: seq<Byte>, data: seq<Byte>, pos: nat)
    requires HasHeader(out)
    requires Blocks(ByteBits(out[2..] + Adler(data)), 0, []) == Parsed(data, pos)
    requires Align(pos) == 8 * |out[2..]|
    ensures ZlibDecode(out + Adler(data)) == Some(data)
  {
    hide ByteBits, Blocks, Adler;
    var sum := Adler(data);
    assert (out + sum)[2..] == out[2..] + sum;
    assert 2 + (pos + 7) / 8 == |out|;
    assert (out + sum)[|out|..] == sum;
  }

  lemma FixedStreamDecodes(out: seq<Byte>, block: seq<bool>, data: seq<Byte>)
    requires HasHeader(out) && Emits(block, data)
    requires [true, true, false] + block + SymbolBits(256) <= ByteBits(out[2..])
    requires 8 * |out[2..]| == Align(|[true, true, false] + block + SymbolBits(256)|)
    ensures ZlibDecode(out + Adler(data)) == Some(data)
  {
    hide ByteBits, Adler, Emits, SymbolBits, FixedBlock, LowValue;
    var body := [true, true, false] + block + SymbolBits(256);
    var bits := ByteBits(out[2..] + Adler(data));
    ByteBitsConcat(out[2..], Adler(data));
    assert bits[..|body|] == ByteBits(out[2..])[..|body|] == body;
    assert bits[0..0 + |body|] == body;
    assert body == [true, true, false] + (block + SymbolBits(256));
    StandsAtSplit(bits, 0, [true, true, false], block + SymbolBits(256));
    StandsAtSplit(bits, 0, [true], [true, false]);
    assert [true] + [true, false] == [true, true, false];
    assert bits[0] == bits[0..0 + 1][0];
    FixedKind();
    assert ReadLow(bits, 1, 2) == Parsed(1, 3);
    EmitEnd(block, data, bits, 3);
    assert |SymbolBits(256)| == 7 by { EndWidth(); }
    BodyDecodes(out, data, 3 + |block| + 7);
  }

  lemma EndWidth()
    ensures |SymbolBits(256)| == 7
  {}

  lemma FixedKind()
    ensures LowValue([true, false]) == 1
  {
    assert LowValue([false]) == 0;
    assert [true, false][1..] == [false];
  }

  lemma StoredStreamDecodes(out: seq<Byte>, data: seq<Byte>)
    requires HasHeader(out) && |out| == 2 && data != []
    ensures ZlibDecode(out + StoredBytes(data, 0) + Adler(data)) == Some(data)
  {
    hide ByteBits, Adler, StoredBytes, Blocks, ZlibDecode;
    var stored := StoredBytes(data, 0);
    var body := out + stored;
    assert body[2..] == stored;
    var bits := ByteBits(stored + Adler(data));
    assert StandsAt(bits, 0, ByteBits(stored)) by {
      ByteBitsAt([], stored, Adler(data));
      assert [] + stored + Adler(data) == stored + Adler(data);
    }
    StoredDecodes(bits, 0, data, 0);
    assert data[..0] == [];
    BodyDecodes(body, data, 8 * |stored|);
  }

  /** An empty input leaves no block at all, which no decoder accepts. */
  lemma EmptyStreamFails(out: seq<Byte>)
    requires |out| == 2
    ensures ZlibDecode(out + StoredBytes([], 0) + Adler([])) == None
  {
    var all := out + StoredBytes([], 0) + Adler([]);
    assert Adler([]) == [0, 0, 0, 1];
    assert all[2..] == [0, 0, 0, 1];
    var bits := ByteBits([0, 0, 0, 1]);
    assert [0, 0, 0, 1] == [0] + [0, 0, 1];
    ByteBitsConcat([0], [0, 0, 1]);
    ByteBitsOne(0);
    HeaderBits(bits, 0, 0);
    assert Align(3) == 8;
    assert StoredBlock(bits, 3, []).Malformed?;
  }

  /** One fixed-Huffman block of the chosen tokens, its last byte filled up with zeros. */
  ghost predicate IsFixedBlock(body: seq<Byte>, data: seq<Byte>, quality: nat)
    requires quality > 0
  {
    exists block ::
      && SpellsAll(block, AllTokens(data, quality)) && [true, true, false] + block + SymbolBits(256) <= ByteBits(body)
      && 8 * |body| == Align(|[true, true, false] + block + SymbolBits(256)|)
      && forall k :: 10 + |block| <= k < 8 * |body| ==> !ByteBits(body)[k]
  }

  /** The zlib header, the fixed-Huffman block or, when that is too long, stored blocks, and the checksum. */
  ghost predicate IsCompressed(out: seq<Byte>, data: seq<Byte>, quality: nat)
    requires quality > 0
  {
    exists fixed ::
      && IsFixedBlock(fixed, data, quality)
      && out == [0x78, 0x5e]
                + (if |fixed| <= |data| + (|data| + 32766) / 32767 * 5 then fixed else StoredBytes(data, 0))
                + Adler(data)
  }

  /** Compresses data into a zlib stream. Decoding gives the data back exactly when there is any. */
  method Compress(data: seq<Byte>, quality: int) returns (out: seq<Byte>)
    ensures ZlibDecode(out) == Some(data) <==> data != []
    ensures IsCompressed(out, data, if quality < 5 then 5 else quality)
    ensures |out| <= |data| + 6 + (|data| + 32766) / 32767 * 5
  {
    hide ByteBits, Adler, Emits, SymbolBits, StoredBytes, ZlibDecode;
    hide SpellsAll, AllTokens, IsFixedBlock, IsCompressed;
    var w := new BitWriter();
    var q := if quality < 5 then 5 else quality;
    ghost var block := WriteFixedBlock(w, data, q);
    w.Pad();
    out := w.out;
    ghost var fixed := out[2..];
    PaddedBlock(fixed, block, data, q);
    assert out[..2] == [0x78, 0x5e];
    assert HasHeader(out) by { assert out[0] == out[..2][0] && out[1] == out[..2][1]; }
    EndWidth();
    if |out| > |data| + 2 + (|data| + 32766) / 32767 * 5 {
      var header := out[..2];
      out := StoreBlocks(data, header);
      StoredSize(data, 0);
      if data == [] {
        EmptyStreamFails(header);
      } else {
        StoredStreamDecodes(header, data);
      }
    } else {
      FixedStreamDecodes(out, block, data);
    }
    var sum := ComputeAdler(data);
    assert |sum| == 4 by { AdlerSize(data); }
    Compressed(out, fixed, data, q);
    out := out + sum;
  }

  lemma Compressed(out: seq<Byte>, fixed: seq<Byte>, data: seq<Byte>, quality: nat)
    requires quality > 0 && IsFixedBlock(fixed, data, quality)
    requires out == [0x78, 0x5e]
                    + (if |fixed| <= |data| + (|data| + 32766) / 32767 * 5 then fixed else StoredBytes(data, 0))
    ensures IsCompressed(out + Adler(data), data, quality)
  {
    hide IsFixedBlock, StoredBytes, Adler;
  }

  lemma PaddedBlock(body: seq<Byte>, block: seq<bool>, data: seq<Byte>, quality: nat)
    requires quality > 0 && SpellsAll(block, AllTokens(data, quality))
    requires [true, true, false] + block + SymbolBits(256) <= ByteBits(body)
    requires 8 * |body| == Align(|[true, true, false] + block + SymbolBits(256)|)
    requires forall k :: |[true, true, false] + block + SymbolBits(256)| <= k < 8 * |body| ==> !ByteBits(body)[k]
    ensures IsFixedBlock(body, data, quality)
  {
    EndWidth();
    hide SymbolBits, SpellsAll, AllTokens, ByteBits;
  }

  lemma AdlerSize(data: seq<Byte>)
    ensures |Adler(data)| == 4
  {}
}
