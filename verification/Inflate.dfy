/** A decoder for zlib streams, written from RFC 1950 section 2.2 and RFC 1951 section 3.2 for the
    stored and fixed-Huffman block types. It is the yardstick for the compressor and shares
    nothing with it but the table of length and distance codes. */
module Inflate {
  import opened Bits
  import opened BitReader
  import opened Wrappers

  type Byte = n: nat | n < 256

  /** Truncation to an unsigned char. */
  function UChar(x: int): Byte { x % 256 }

  /** RFC 1951, section 3.2.5: first length and number of extra bits of codes 257 .. 285. */
  const LENGTH_BASE: seq<nat> :=
    [3, 4, 5, 6, 7, 8, 9, 10, 11, 13, 15, 17, 19, 23, 27, 31, 35, 43, 51, 59, 67, 83, 99, 115, 131, 163, 195, 227, 258]
  const LENGTH_EXTRA: seq<nat> :=
    [0, 0, 0, 0, 0, 0, 0, 0, 1, 1, 1, 1, 2, 2, 2, 2, 3, 3, 3, 3, 4, 4, 4, 4, 5, 5, 5, 5, 0]

  /** The same for distance codes 0 .. 29. */
  const DISTANCE_BASE: seq<nat> :=
    [1, 2, 3, 4, 5, 7, 9, 13, 17, 25, 33, 49, 65, 97, 129, 193, 257, 385, 513, 769, 1025, 1537, 2049, 3073,
     4097, 6145, 8193, 12289, 16385, 24577]
  const DISTANCE_EXTRA: seq<nat> :=
    [0, 0, 0, 0, 1, 1, 2, 2, 3, 3, 4, 4, 5, 5, 6, 6, 7, 7, 8, 8, 9, 9, 10, 10, 11, 11, 12, 12, 13, 13]

  function LengthBase(k: nat): nat
    requires k < 29
  {
    LENGTH_BASE[k]
  }

  function LengthExtra(k: nat): nat
    requires k < 29
  {
    LENGTH_EXTRA[k]
  }

  function DistanceBase(k: nat): nat
    requires k < 30
  {
    DISTANCE_BASE[k]
  }

  function DistanceExtra(k: nat): nat
    requires k < 30
  {
    DISTANCE_EXTRA[k]
  }

  datatype Token = Literal(byte: Byte) | Match(length: nat, distance: nat) | EndOfBlock

  /** RFC 1951, section 3.2.6: the fixed literal/length code. */
  function ReadSymbol(bits: seq<bool>, p: nat): (r: Parsed<nat>)
    ensures r.Parsed? ==> p < r.pos <= |bits|
  {
    var seven := ReadHigh(bits, p, 7);
    if seven.Parsed? && seven.value < 24 then Parsed(256 + seven.value, p + 7)
    else
      var eight := ReadHigh(bits, p, 8);
      if eight.Parsed? && 0x30 <= eight.value < 0xC0 then Parsed(eight.value - 0x30, p + 8)
      else if eight.Parsed? && 0xC0 <= eight.value < 0xC8 then Parsed(280 + eight.value - 0xC0, p + 8)
      else
        var nine := ReadHigh(bits, p, 9);
        if nine.Parsed? && 0x190 <= nine.value then Parsed(144 + nine.value - 0x190, p + 9)
        else Malformed
  }

  /** A distance: five code bits, then the extra bits of that code. */
  function ReadDistance(bits: seq<bool>, p: nat): (r: Parsed<nat>)
    ensures r.Parsed? ==> p < r.pos <= |bits|
  {
    var code := ReadHigh(bits, p, 5);
    if code.Malformed? || code.value >= 30 then Malformed
    else
      var extra := ReadLow(bits, p + 5, DistanceExtra(code.value));
      if extra.Malformed? then Malformed else Parsed(DistanceBase(code.value) + extra.value, extra.pos)
  }

  function ReadToken(bits: seq<bool>, p: nat): (r: Parsed<Token>)
    ensures r.Parsed? ==> p < r.pos <= |bits|
  {
    var symbol := ReadSymbol(bits, p);
    if symbol.Malformed? then Malformed
    else if symbol.value < 256 then Parsed(Literal(symbol.value), symbol.pos)
    else if symbol.value == 256 then Parsed(EndOfBlock, symbol.pos)
    else if symbol.value > 285 then Malformed
    else
      var k := symbol.value - 257;
      var extra := ReadLow(bits, symbol.pos, LengthExtra(k));
      if extra.Malformed? then Malformed
      else
        var distance := ReadDistance(bits, extra.pos);
        if distance.Malformed? then Malformed
        else Parsed(Match(LengthBase(k) + extra.value, distance.value), distance.pos)
  }

  /** Copies byte by byte, so the copied string may overlap its source. */
  function CopyMatch(out: seq<Byte>, length: nat, distance: nat): (r: seq<Byte>)
    requires 1 <= distance <= |out|
    ensures |r| == |out| + length
    decreases length
  {
    if length == 0 then out else CopyMatch(out + [out[|out| - distance]], length - 1, distance)
  }

  function FixedBlock(bits: seq<bool>, p: nat, out: seq<Byte>): (r: Parsed<seq<Byte>>)
    requires p <= |bits|
    ensures r.Parsed? ==> p < r.pos <= |bits|
    decreases |bits| - p
  {
    var token := ReadToken(bits, p);
    if token.Malformed? then Malformed
    else
      match token.value
      case Literal(b) => FixedBlock(bits, token.pos, out + [b])
      case EndOfBlock => Parsed(out, token.pos)
      case Match(length, distance) =>
        if 1 <= distance <= |out| then FixedBlock(bits, token.pos, CopyMatch(out, length, distance)) else Malformed
  }

  /** The first byte boundary at or after bit p. */
  function Align(p: nat): nat { (p + 7) / 8 * 8 }

  function ReadBytes(bits: seq<bool>, p: nat, n: nat): (r: seq<Byte>)
    requires p + 8 * n <= |bits|
    ensures |r| == n
  {
    if n == 0 then []
    else
      var q := p + 8 * (n - 1);
      LowValueBound(bits[q..q + 8]);
      assert Pow2(8) == 256;
      ReadBytes(bits, p, n - 1) + [LowValue(bits[q..q + 8])]
  }

  /** RFC 1951, section 3.2.4: LEN, its complement, and LEN literal bytes on a byte boundary. */
  function StoredBlock(bits: seq<bool>, p: nat, out: seq<Byte>): (r: Parsed<seq<Byte>>)
    ensures r.Parsed? ==> p < r.pos <= |bits|
  {
    var q := Align(p);
    var len, nlen := ReadLow(bits, q, 16), ReadLow(bits, q + 16, 16);
    if nlen.Malformed? || len.value + nlen.value != 0xFFFF || q + 32 + 8 * len.value > |bits| then Malformed
    else Parsed(out + ReadBytes(bits, q + 32, len.value), q + 32 + 8 * len.value)
  }

  /** The blocks from bit p on; `out` is what earlier blocks produced. */
  function Blocks(bits: seq<bool>, p: nat, out: seq<Byte>): (r: Parsed<seq<Byte>>)
    requires p <= |bits|
    ensures r.Parsed? ==> p < r.pos <= |bits|
    decreases |bits| - p
  {
    var kind := ReadLow(bits, p + 1, 2);
    if kind.Malformed? then Malformed
    else
      var block := if kind.value == 0 then StoredBlock(bits, p + 3, out)
                   else if kind.value == 1 then FixedBlock(bits, p + 3, out)
                   else Malformed;
      if block.Malformed? || bits[p] then block else Blocks(bits, block.pos, block.value)
  }

  /** RFC 1950, section 2.2: the two sums of the Adler-32 checksum. */
  function AdlerLow(data: seq<Byte>): nat {
    if data == [] then 1 else (AdlerLow(data[..|data| - 1]) + data[|data| - 1]) % 65521
  }

  function AdlerHigh(data: seq<Byte>): nat {
    if data == [] then 0 else (AdlerHigh(data[..|data| - 1]) + AdlerLow(data)) % 65521
  }

  /** The checksum in stream order: the high sum, then the low sum, each most significant byte first. */
  function Adler(data: seq<Byte>): seq<Byte> {
    var s1, s2 := AdlerLow(data), AdlerHigh(data);
    [s2 / 256 % 256, s2 % 256, s1 / 256 % 256, s1 % 256]
  }

  /** The bits of a byte string, least significant bit of each byte first. */
  function ByteBits(bytes: seq<Byte>): (b: seq<bool>)
    ensures |b| == 8 * |bytes|
  {
    if bytes == [] then [] else ByteBits(bytes[..|bytes| - 1]) + LowBits(bytes[|bytes| - 1], 8)
  }

  /** A whole zlib stream: header, blocks, checksum, and nothing behind it. */
  function ZlibDecode(bytes: seq<Byte>): Option<seq<Byte>> {
    if |bytes| < 2 || bytes[0] % 16 != 8 || bytes[0] / 16 > 7 || (bytes[0] as int * 256 + bytes[1]) % 31 != 0
       || bytes[1] / 32 % 2 == 1 then None
    else
      var body := Blocks(ByteBits(bytes[2..]), 0, []);
      if body.Malformed? then None
      else
        var q := 2 + (body.pos + 7) / 8;
        if bytes[q..] == Adler(body.value) then Some(body.value) else None
  }
}
