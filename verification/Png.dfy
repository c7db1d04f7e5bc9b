/** The PNG file in memory: the reader of RFC 2083 sections 3 and 4 for pictures of 8-bit samples
    without palette, and the writer, whose files the reader turns back into the lines. */
module Png {
  import opened Arithmetic
  import opened Wrappers
  import opened Inflate
  import opened Zlib
  import opened Crc
  import opened PngFilter

  // ---------- Words ----------

  /** Four bytes, most significant first. */
  function Be32(v: nat): (b: seq<Byte>)
    ensures |b| == 4
  {
    [UChar(v / 0x100_0000), UChar(v / 0x1_0000), UChar(v / 0x100), UChar(v)]
  }

  function Value(b: seq<Byte>): nat
    requires |b| == 4
  {
    ((b[0] as nat * 256 + b[1]) * 256 + b[2]) * 256 + b[3]
  }

  lemma WordReadBack(v: nat)
    requires v < 0x1_0000_0000
    ensures Value(Be32(v)) == v
  {
    var v1, v2 := v / 256, v / 256 / 256;
    assert v / 0x1_0000 == v2 && v / 0x100_0000 == v2 / 256;
    assert v == 256 * v1 + v % 256 && v1 == 256 * v2 + v1 % 256 && v2 == 256 * (v2 / 256) + v2 % 256;
  }

  lemma CrcIsWord(data: seq<Byte>)
    ensures Crc32(data) < 0x1_0000_0000
  {
    hide Register;
  }

  // ---------- The reader ----------

  const SIGNATURE: seq<Byte> := [137, 80, 78, 71, 13, 10, 26, 10]
  const IHDR: seq<Byte> := [73, 72, 68, 82]
  const IDAT: seq<Byte> := [73, 68, 65, 84]
  const IEND: seq<Byte> := [73, 69, 78, 68]

  datatype Chunk = Chunk(tag: seq<Byte>, data: seq<Byte>)

  /** The first chunk, if it is complete and its checksum is right, and the bytes behind it. */
  function ReadChunk(bytes: seq<Byte>): (r: Option<(Chunk, seq<Byte>)>)
    ensures r.Some? ==> |r.value.1| < |bytes|
  {
    if |bytes| < 12 then None
    else
      var len := Value(bytes[..4]);
      if |bytes| < 12 + len || Value(bytes[8 + len..12 + len]) != Crc32(bytes[4..8 + len]) then None
      else Some((Chunk(bytes[4..8], bytes[8..8 + len]), bytes[12 + len..]))
  }

  function ReadChunks(bytes: seq<Byte>): Option<seq<Chunk>>
    decreases |bytes|
  {
    if bytes == [] then Some([])
    else
      var first := ReadChunk(bytes);
      if first == None then None
      else
        var rest := ReadChunks(first.value.1);
        if rest == None then None else Some([first.value.0] + rest.value)
  }

  /** The data of the IDAT chunks, joined; no other chunk may be among them. */
  function JoinData(chunks: seq<Chunk>): Option<seq<Byte>> {
    if chunks == [] then Some([])
    else
      var rest := JoinData(chunks[1..]);
      if rest == None || chunks[0].tag != IDAT then None else Some(chunks[0].data + rest.value)
  }

  /** Bytes per pixel of a colour type. */
  function Samples(colourType: Byte): nat {
    if colourType == 0 then 1
    else if colourType == 4 then 2
    else if colourType == 2 then 3
    else if colourType == 6 then 4
    else 0
  }

  datatype Decoded = Decoded(width: nat, height: nat, n: nat, lines: seq<seq<Byte>>)

  function DecodeLines(header: seq<Byte>, zlib: seq<Byte>): Option<Decoded>
    requires |header| == 13
  {
    var width, height, n := Value(header[..4]), Value(header[4..8]), Samples(header[9]);
    if width == 0 || height == 0 || n == 0 || header[8] != 8 || header[10..] != [0, 0, 0] then None
    else
      var filt := ZlibDecode(zlib);
      if filt == None then None
      else
        var lines := Unfilter(filt.value, width * n, n, height);
        if lines == None then None else Some(Decoded(width, height, n, lines.value))
  }

  function PngDecode(file: seq<Byte>): Option<Decoded> {
    if |file| < 8 || file[..8] != SIGNATURE then None
    else
      var chunks := ReadChunks(file[8..]);
      if chunks == None || |chunks.value| < 2 then None
      else
        var c, last := chunks.value, |chunks.value| - 1;
        if c[0].tag != IHDR || |c[0].data| != 13 || c[last] != Chunk(IEND, []) then None
        else
          var zlib := JoinData(c[1..last]);
          if zlib == None then None else DecodeLines(c[0].data, zlib.value)
  }

  // ---------- What the writer writes ----------

  function ChunkBytes(tag: seq<Byte>, data: seq<Byte>): seq<Byte> {
    Be32(|data|) + tag + data + Be32(Crc32(tag + data))
  }

  lemma ChunkReadBack(tag: seq<Byte>, data: seq<Byte>, rest: seq<Byte>)
    requires |tag| == 4 && |data| < 0x1_0000_0000
    ensures ReadChunk(ChunkBytes(tag, data) + rest) == Some((Chunk(tag, data), rest))
  {
    hide Be32, Value, Crc32;
    var bytes, len := ChunkBytes(tag, data) + rest, |data|;
    WordReadBack(len);
    CrcIsWord(tag + data);
    WordReadBack(Crc32(tag + data));
    assert bytes[..4] == Be32(len);
    assert bytes[4..8] == tag && bytes[8..8 + len] == data && bytes[4..8 + len] == tag + data;
    assert bytes[8 + len..12 + len] == Be32(Crc32(tag + data));
    assert bytes[12 + len..] == rest;
  }

  lemma ChunksReadBack(tag: seq<Byte>, data: seq<Byte>, rest: seq<Byte>, chunks: seq<Chunk>)
    requires |tag| == 4 && |data| < 0x1_0000_0000 && ReadChunks(rest) == Some(chunks)
    ensures ReadChunks(ChunkBytes(tag, data) + rest) == Some([Chunk(tag, data)] + chunks)
  {
    assert |ChunkBytes(tag, data) + rest| > 0;
    hide ChunkBytes, ReadChunk;
    ChunkReadBack(tag, data, rest);
  }

  function ColourType(n: nat): Byte
    requires 1 <= n <= 4
  {
    [0, 4, 2, 6][n - 1]
  }

  function Header(p: Picture): (h: seq<Byte>)
    requires 1 <= p.n <= 4
    ensures |h| == 13
  {
    Be32(p.width) + Be32(p.height) + [8, ColourType(p.n), 0, 0, 0]
  }

  function FileBytes(p: Picture, zlib: seq<Byte>): seq<Byte>
    requires 1 <= p.n <= 4
  {
    SIGNATURE + (ChunkBytes(IHDR, Header(p)) + (ChunkBytes(IDAT, zlib) + (ChunkBytes(IEND, []) + [])))
  }

  lemma HeaderReadBack(p: Picture, zlib: seq<Byte>, filt: seq<Byte>)
    requires p.Valid() && p.width < 0x1_0000_0000 && p.height < 0x1_0000_0000
    requires ZlibDecode(zlib) == Some(filt)
    requires Unfilter(filt, LineLength(p), p.n, p.height) == Some(Lines(p, p.height))
    ensures DecodeLines(Header(p), zlib) == Some(Decoded(p.width, p.height, p.n, Lines(p, p.height)))
  {
    hide Be32, Value, ZlibDecode, Unfilter, Lines;
    var h := Header(p);
    WordReadBack(p.width);
    WordReadBack(p.height);
    assert h[..4] == Be32(p.width) && h[4..8] == Be32(p.height) && h[10..] == [0, 0, 0];
  }

  /** A reader gets the lines of the picture from the file. */
  lemma FileReadBack(p: Picture, zlib: seq<Byte>, filt: seq<Byte>)
    requires p.Valid() && p.width < 0x1_0000_0000 && p.height < 0x1_0000_0000 && |zlib| < 0x1_0000_0000
    requires ZlibDecode(zlib) == Some(filt)
    requires Unfilter(filt, LineLength(p), p.n, p.height) == Some(Lines(p, p.height))
    ensures PngDecode(FileBytes(p, zlib)) == Some(Decoded(p.width, p.height, p.n, Lines(p, p.height)))
  {
    hide ChunkBytes, ReadChunks, DecodeLines, Header, ZlibDecode, Unfilter, Lines, LineLength;
    assert ReadChunks([]) == Some([]) by { NoChunks(); }
    var end := ChunkBytes(IEND, []) + [];
    ChunksReadBack(IEND, [], [], []);
    var body := ChunkBytes(IDAT, zlib) + end;
    var last := [Chunk(IEND, [])] + [];
    ChunksReadBack(IDAT, zlib, end, last);
    ChunksReadBack(IHDR, Header(p), body, [Chunk(IDAT, zlib)] + last);
    var file := FileBytes(p, zlib);
    assert file[..8] == SIGNATURE && file[8..] == ChunkBytes(IHDR, Header(p)) + body;
    var chunks := [Chunk(IHDR, Header(p))] + ([Chunk(IDAT, zlib)] + last);
    assert chunks[1..2] == [Chunk(IDAT, zlib)];
    OneDataChunk(zlib);
    HeaderReadBack(p, zlib, filt);
  }

  lemma NoChunks()
    ensures ReadChunks([]) == Some([])
  {}

  lemma OneDataChunk(zlib: seq<Byte>)
    ensures JoinData([Chunk(IDAT, zlib)]) == Some(zlib)
  {
    assert [Chunk(IDAT, zlib)][1..] == [];
    assert zlib + [] == zlib;
  }

  // ---------- The writer ----------

  method WriteWord(out: array<Byte>, o: nat, v: nat)
    requires o + 4 <= out.Length
    modifies out
    ensures out[..o + 4] == old(out[..o]) + Be32(v)
  {
    out[o], out[o + 1], out[o + 2], out[o + 3] := UChar(v / 0x100_0000), UChar(v / 0x1_0000), UChar(v / 0x100),
        UChar(v);
  }

  /** Writes the checksum of the `len` data bytes before position o and of the tag before them. */
  method WriteCrc(out: array<Byte>, o: nat, len: nat)
    requires len + 4 <= o && o + 4 <= out.Length
    modifies out
    ensures out[..o + 4] == old(out[..o]) + Be32(Crc32(old(out[o - len - 4..o])))
  {
    var crc := ComputeCrc(out, o - len - 4, len + 4);
    WriteWord(out, o, crc);
  }

  method WriteChunk(out: array<Byte>, at: nat, tag: seq<Byte>, data: seq<Byte>) returns (o: nat)
    requires |tag| == 4 && at + 12 + |data| <= out.Length
    modifies out
    ensures o == at + 12 + |data| && out[..o] == old(out[..at]) + ChunkBytes(tag, data)
  {
    hide Be32, Crc32;
    ghost var before := out[..at];
    WriteWord(out, at, |data|);
    CopyInto(out, at + 4, tag);
    CopyInto(out, at + 8, data);
    o := at + 8 + |data|;
    assert out[..o] == before + Be32(|data|) + tag + data;
    assert out[o - |data| - 4..o] == out[..o][at + 4..] == tag + data;
    WriteCrc(out, o, |data|);
    o := o + 4;
  }

  /** A stride of zero means rows without gaps. */
  function Normalised(p: Picture): Picture {
    if p.stride == 0 then p.(stride := p.width * p.n) else p
  }

  /** The filtered picture and the file fit the size arithmetic of a 32-bit int. */
  ghost predicate FitsInt(p: Picture) {
    var size := FilteredAt(LineLength(p), p.height);
    size + 6 + (size + 32766) / 32767 * 5 + 57 < 0x8000_0000
  }

  lemma DimensionsFit(p: Picture)
    requires p.Valid() && FitsInt(p)
    ensures p.width < 0x8000_0000 && p.height < 0x8000_0000 && FilteredAt(LineLength(p), p.height) > 0
  {
    MulMonotone(1, p.n, p.width);
    MulMonotone(1, p.height, LineLength(p) + 1);
    MulMonotone(1, LineLength(p) + 1, p.height);
  }

  /** The file around the compressed lines. */
  method WriteFile(p: Picture, zlib: seq<Byte>) returns (out: array<Byte>)
    requires 1 <= p.n <= 4
    ensures fresh(out) && out.Length == 57 + |zlib| && out[..] == FileBytes(p, zlib)
  {
    hide ChunkBytes, Header;
    out := new Byte[8 + 12 + 13 + 12 + |zlib| + 12];
    assert out[..0] == [];
    CopyInto(out, 0, SIGNATURE);
    var o := WriteChunk(out, 8, IHDR, Header(p));
    o := WriteChunk(out, o, IDAT, zlib);
    o := WriteChunk(out, o, IEND, []);
    assert o == out.Length && out[..o] == out[..];
  }

  /** The file is signature, IHDR, one IDAT and IEND, 57 bytes around the compressed lines. */
  ghost predicate IsPngFile(file: seq<Byte>, p: Picture)
    requires 1 <= p.n <= 4
  {
    exists zlib :: file == FileBytes(p, zlib) && |file| == 57 + |zlib|
  }

  /** Writes the picture as a PNG file; reading the file gives the dimensions and every line back, for
      every forced or estimated filter and every quality. */
  method WritePngToMem(picture: Picture, forceFilter: int, quality: int) returns (out: array<Byte>)
    requires Normalised(picture).Valid() && FitsInt(Normalised(picture))
    ensures var p := Normalised(picture);
      PngDecode(out[..]) == Some(Decoded(p.width, p.height, p.n, Lines(p, p.height)))
    ensures IsPngFile(out[..], picture)
  {
    var p := Normalised(picture);
    DimensionsFit(p);
    var filt := FilterPicture(p, if forceFilter >= 5 then -1 else forceFilter);
    ghost var lines := filt[..];
    var zlib := Compress(filt[..], quality);
    hide FileBytes, Lines, Unfilter, LineLength, ZlibDecode, FilteredAt, PngDecode;
    out := WriteFile(p, zlib);
    FileReadBack(p, zlib, lines);
    assert FileBytes(picture, zlib) == FileBytes(p, zlib) by { StrideIsNotWritten(picture, zlib); }
  }

  lemma StrideIsNotWritten(p: Picture, zlib: seq<Byte>)
    requires 1 <= p.n <= 4
    ensures FileBytes(p, zlib) == FileBytes(Normalised(p), zlib)
  {}
}
