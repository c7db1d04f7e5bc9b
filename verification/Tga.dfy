/** Run-length coded TGA files: a reader and the writer whose files it reads back. */
module Tga {
  import opened Arithmetic
  import opened Spans
  import opened Wrappers
  import opened Inflate
  import opened ImageOutput

  /** The bytes of a pixel: grey, grey and alpha, RGB, or RGB and alpha. */
  type Pixel = p: seq<Byte> | 1 <= |p| <= 4 witness [0]

  /** Colours are stored blue first. */
  function PixelBytes(d: Pixel): (b: Pixel)
    ensures |b| == |d|
  {
    if |d| < 3 then d else [d[2], d[1], d[0]] + d[3..]
  }

  // ---------- The reader ----------

  /** A stored pixel: grey, grey and alpha, or blue, green, red, and perhaps alpha. */
  function Restored(b: Pixel): (d: Pixel)
    ensures |d| == |b|
  {
    if |b| == 1 then [b[0]]
    else if |b| == 2 then [b[0], b[1]]
    else if |b| == 3 then [b[2], b[1], b[0]]
    else [b[2], b[1], b[0], b[3]]
  }

  /** The first n pixels and the bytes behind them. */
  function TakePixels(b: seq<Byte>, size: nat, n: nat): (r: Option<(seq<Pixel>, seq<Byte>)>)
    requires 1 <= size <= 4
    ensures r.Some? ==> |r.value.1| <= |b|
  {
    if n == 0 then Some(([], b))
    else if |b| < size then None
    else
      var rest := TakePixels(b[size..], size, n - 1);
      if rest == None then None else Some(([Restored(b[..size])] + rest.value.0, rest.value.1))
  }

  function Prepend(pixels: seq<Pixel>, rest: Option<seq<Pixel>>): Option<seq<Pixel>> {
    if rest == None then None else Some(pixels + rest.value)
  }

  /** Packets: a byte below 128 announces that many pixels and one more, other bytes a repeated pixel. */
  function DecodePackets(b: seq<Byte>, size: nat): Option<seq<Pixel>>
    requires 1 <= size <= 4
    decreases |b|
  {
    if b == [] then Some([])
    else if b[0] >= 128 then
      if |b| < 1 + size then None
      else Prepend(Repeat(Restored(b[1..1 + size]), b[0] - 127), DecodePackets(b[1 + size..], size))
    else
      var raw := TakePixels(b[1..], size, b[0] + 1);
      if raw == None then None else Prepend(raw.value.0, DecodePackets(raw.value.1, size))
  }

  /** The bytes are packets for exactly these pixels, whatever follows. */
  ghost predicate Packs(b: seq<Byte>, size: nat, pixels: seq<Pixel>)
    requires 1 <= size <= 4
  {
    forall rest :: DecodePackets(b + rest, size) == Prepend(pixels, DecodePackets(rest, size))
  }

  lemma PacksNothing(size: nat)
    requires 1 <= size <= 4
    ensures Packs([], size, [])
  {
    forall rest
      ensures DecodePackets([] + rest, size) == Prepend([], DecodePackets(rest, size))
    {
      assert [] + rest == rest;
      var d := DecodePackets(rest, size);
      assert d.Some? ==> [] + d.value == d.value;
    }
  }

  lemma PacksConcat(a: seq<Byte>, b: seq<Byte>, size: nat, p: seq<Pixel>, q: seq<Pixel>)
    requires 1 <= size <= 4 && Packs(a, size, p) && Packs(b, size, q)
    ensures Packs(a + b, size, p + q)
  {
    hide DecodePackets;
    forall rest
      ensures DecodePackets(a + b + rest, size) == Prepend(p + q, DecodePackets(rest, size))
    {
      assert a + b + rest == a + (b + rest);
      var d := DecodePackets(rest, size);
      assert d.Some? ==> p + (q + d.value) == p + q + d.value;
    }
  }

  // ---------- Packets ----------

  function RawBytes(pixels: seq<Pixel>): seq<Byte> {
    if pixels == [] then [] else RawBytes(pixels[..|pixels| - 1]) + PixelBytes(pixels[|pixels| - 1])
  }

  predicate OfSize(pixels: seq<Pixel>, size: nat) { forall p :: p in pixels ==> |p| == size }

  lemma PixelReadBack(d: Pixel)
    ensures Restored(PixelBytes(d)) == d
  {}

  lemma RawLast(pixels: seq<Pixel>, p: Pixel)
    ensures RawBytes(pixels + [p]) == RawBytes(pixels) + PixelBytes(p)
  {
    hide PixelBytes;
    assert (pixels + [p])[..|pixels|] == pixels;
  }

  lemma RawNothing()
    ensures RawBytes([]) == []
  {}

  lemma {:induction false} RawFirst(p: Pixel, more: seq<Pixel>)
    ensures RawBytes([p] + more) == PixelBytes(p) + RawBytes(more)
  {
    hide RawBytes, PixelBytes;
    if more == [] {
      RawNothing();
      RawLast([], p);
      assert [p] + more == [] + [p];
    } else {
      var front, q := more[..|more| - 1], more[|more| - 1];
      assert more == front + [q] && [p] + more == [p] + front + [q];
      RawFirst(p, front);
      RawLast([p] + front, q);
      RawLast(front, q);
    }
  }

  lemma TakeFirst(p: Pixel, after: seq<Byte>, n: nat)
    ensures TakePixels(PixelBytes(p) + after, |p|, n + 1)
         == var rest := TakePixels(after, |p|, n); if rest == None then None
           else Some(([p] + rest.value.0, rest.value.1))
  {
    PixelReadBack(p);
    hide PixelBytes, Restored;
    var b := PixelBytes(p) + after;
    assert b[..|p|] == PixelBytes(p) && b[|p|..] == after;
  }

  lemma {:induction false} RawTaken(pixels: seq<Pixel>, size: nat, rest: seq<Byte>)
    requires 1 <= size <= 4 && OfSize(pixels, size)
    ensures TakePixels(RawBytes(pixels) + rest, size, |pixels|) == Some((pixels, rest))
  {
    hide PixelBytes, Restored;
    if pixels == [] {
      assert [] + rest == rest;
    } else {
      var p, more := pixels[0], pixels[1..];
      assert p in pixels && forall q :: q in more ==> q in pixels;
      assert [p] + more == pixels;
      RawFirst(p, more);
      hide RawBytes, TakePixels;
      assert RawBytes(pixels) + rest == PixelBytes(p) + (RawBytes(more) + rest);
      RawTaken(more, size, rest);
      TakeFirst(p, RawBytes(more) + rest, |more|);
    }
  }

  lemma RawDecoded(h: Byte, body: seq<Byte>, size: nat)
    requires 1 <= size <= 4 && h < 128
    ensures DecodePackets([h] + body, size)
         == var raw := TakePixels(body, size, h + 1); if raw == None then None
           else Prepend(raw.value.0, DecodePackets(raw.value.1, size))
  {
    hide TakePixels;
    assert ([h] + body)[1..] == body;
  }

  lemma RawPacket(pixels: seq<Pixel>, size: nat)
    requires 1 <= size <= 4 && OfSize(pixels, size) && 1 <= |pixels| <= 128
    ensures Packs([UChar(|pixels| - 1)] + RawBytes(pixels), size, pixels)
  {
    hide RawBytes, TakePixels, DecodePackets, OfSize;
    var h: Byte := |pixels| - 1;
    assert UChar(|pixels| - 1) == h;
    hide UChar;
    forall rest
      ensures DecodePackets([h] + RawBytes(pixels) + rest, size) == Prepend(pixels, DecodePackets(rest, size))
    {
      RawTaken(pixels, size, rest);
      RawDecoded(h, RawBytes(pixels) + rest, size);
      assert [h] + RawBytes(pixels) + rest == [h] + (RawBytes(pixels) + rest);
    }
  }

  lemma RunDecoded(h: Byte, q: Pixel, body: seq<Byte>)
    requires h >= 128
    ensures DecodePackets([h] + q + body, |q|) == Prepend(Repeat(Restored(q), h - 127), DecodePackets(body, |q|))
  {
    hide Restored, Repeat;
    var b := [h] + q + body;
    assert b[1..1 + |q|] == q && b[1 + |q|..] == body && b[0] == h;
  }

  lemma RunPacket(p: Pixel, n: nat)
    requires 1 <= n <= 128
    ensures Packs([UChar(n - 129)] + PixelBytes(p), |p|, Repeat(p, n))
  {
    var h: Byte := n + 127;
    assert UChar(n - 129) == h;
    PixelReadBack(p);
    hide PixelBytes, Restored, Repeat, DecodePackets, UChar;
    forall rest
      ensures DecodePackets([h] + PixelBytes(p) + rest, |p|) == Prepend(Repeat(p, n), DecodePackets(rest, |p|))
    {
      RunDecoded(h, PixelBytes(p), rest);
    }
  }

  // ---------- The writer ----------

  /** How many pixels the packet at position i takes, and whether it is raw. A run takes all equal pixels; a
      raw packet ends one pixel before the first that equals its last but one. Both stop at 128 pixels. */
  method PacketLength(row: seq<Pixel>, i: nat) returns (len: nat, diff: bool)
    requires i < |row|
    ensures 1 <= len <= 128 && i + len <= |row|
    ensures diff <==> i + 1 == |row| || row[i + 1] != row[i]
    ensures !diff ==> forall k :: i <= k < i + len ==> row[k] == row[i]
    ensures !diff && len < 128 && i + len < |row| ==> row[i + len] != row[i]
    ensures diff ==> forall k :: i + 2 <= k < i + len ==> row[k] != row[k - 2]
    ensures diff && len < 128 && i + len < |row| ==>
      && i + len + 1 < |row| && row[i + len + 1] == row[i + len - 1]
      && (len > 1 ==> row[i + len] != row[i + len - 2])
  {
    diff := true;
    len := 1;
    if i < |row| - 1 {
      len := len + 1;
      diff := row[i] != row[i + 1];
      var k := i + 2;
      if diff {
        var prev := i;
        while k < |row| && len < 128
          invariant k <= |row| && len == k - i <= 128 && prev == k - 2
          invariant forall j :: i + 2 <= j < k ==> row[j] != row[j - 2]
        {
          if row[prev] != row[k] {
            prev := prev + 1;
            len := len + 1;
          } else {
            len := len - 1;
            break;
          }
          k := k + 1;
        }
      } else {
        while k < |row| && len < 128
          invariant k <= |row| && len == k - i <= 128
          invariant forall j :: i <= j < k ==> row[j] == row[i]
        {
          if row[i] != row[k] { break; }
          len := len + 1;
          k := k + 1;
        }
      }
    }
  }

  method WritePixel(s: ImageWriter, d: Pixel)
    requires s.Valid()
    modifies s, s.buffer
    ensures s.Valid() && s.buffer == old(s.buffer) && s.Contents() == old(s.Contents()) + PixelBytes(d)
  {
    var comp := |d|;
    var writeAlpha := comp == 2 || comp == 4;
    match comp {
      case 1 => s.Write1(d[0]);
      case 2 => s.Write1(d[0]);
      case _ => s.Write3(d[2], d[1], d[0]);
    }
    if writeAlpha { s.Write1(d[comp - 1]); }
  }

  method WriteRaw(s: ImageWriter, pixels: seq<Pixel>)
    requires s.Valid() && 1 <= |pixels| <= 128
    modifies s, s.buffer
    ensures s.Valid() && s.buffer == old(s.buffer)
    ensures s.Contents() == old(s.Contents()) + ([UChar(|pixels| - 1)] + RawBytes(pixels))
  {
    hide PixelBytes, UChar;
    s.Write1(UChar(|pixels| - 1));
    for k := 0 to |pixels|
      invariant s.Valid() && s.buffer == old(s.buffer)
      invariant s.Contents() == old(s.Contents()) + ([UChar(|pixels| - 1)] + RawBytes(pixels[..k]))
    {
      WritePixel(s, pixels[k]);
      assert pixels[..k + 1][..k] == pixels[..k];
    }
    assert pixels[..|pixels|] == pixels;
  }

  method WriteRun(s: ImageWriter, p: Pixel, len: nat)
    requires s.Valid() && 1 <= len <= 128
    modifies s, s.buffer
    ensures s.Valid() && s.buffer == old(s.buffer)
    ensures s.Contents() == old(s.Contents()) + ([UChar(len - 129)] + PixelBytes(p))
  {
    hide PixelBytes, UChar;
    s.Write1(UChar(len - 129));
    WritePixel(s, p);
  }

  method WritePacket(s: ImageWriter, row: seq<Pixel>, i: nat, len: nat, diff: bool, size: nat)
      returns (ghost b: seq<Byte>)
    requires s.Valid() && 1 <= size <= 4 && OfSize(row, size)
    requires 1 <= len <= 128 && i + len <= |row|
    requires !diff ==> forall k :: i <= k < i + len ==> row[k] == row[i]
    modifies s, s.buffer
    ensures s.Valid() && s.buffer == old(s.buffer) && s.Contents() == old(s.Contents()) + b
      && Packs(b, size, row[i..i + len])
  {
    hide PixelBytes, Packs, RawBytes, UChar;
    ghost var part := row[i..i + len];
    assert forall p :: p in part ==> p in row;
    if diff {
      WriteRaw(s, row[i..i + len]);
      b := [UChar(len - 1)] + RawBytes(part);
      RawPacket(part, size);
    } else {
      WriteRun(s, row[i], len);
      b := [UChar(len - 129)] + PixelBytes(row[i]);
      assert row[i] in row && part == Repeat(row[i], len);
      RunPacket(row[i], len);
    }
  }

  /** Writes a row as packets. */
  method WriteRow(s: ImageWriter, row: seq<Pixel>, size: nat) returns (ghost b: seq<Byte>)
    requires s.Valid() && 1 <= size <= 4 && OfSize(row, size)
    modifies s, s.buffer
    ensures s.Valid() && s.buffer == old(s.buffer) && s.Contents() == old(s.Contents()) + b && Packs(b, size, row)
  {
    hide Packs, OfSize;
    b := [];
    var i := 0;
    PacksNothing(size);
    assert row[..0] == [];
    while i < |row|
      invariant 0 <= i <= |row| && s.Valid() && s.buffer == old(s.buffer)
      invariant s.Contents() == old(s.Contents()) + b && Packs(b, size, row[..i])
    {
      var len, diff := PacketLength(row, i);
      ghost var packet := WritePacket(s, row, i, len, diff, size);
      PacksConcat(b, packet, size, row[..i], row[i..i + len]);
      assert row[..i] + row[i..i + len] == row[..i + len];
      b := b + packet;
      i := i + len;
    }
    assert row[..i] == row;
  }

  // ---------- The file ----------

  function Le16(v: nat): (b: seq<Byte>)
    ensures |b| == 2
  {
    [UChar(v), UChar(v / 256)]
  }

  function Word(low: Byte, high: Byte): nat { low as nat + 256 * (high as nat) }

  function Header(x: nat, y: nat, comp: nat): (h: seq<Byte>)
    requires 1 <= comp <= 4
    ensures |h| == 18
  {
    var hasAlpha := if comp == 2 || comp == 4 then 1 else 0;
    var format := if comp - hasAlpha < 2 then 3 else 2;
    [0, 0, format + 8, 0, 0, 0, 0, 0, 0, 0, 0, 0] + Le16(x) + Le16(y) + [comp * 8, hasAlpha * 8]
  }

  /** The rows of an image one after the other, the bottom row first. */
  datatype Image = Image(width: nat, height: nat, comp: nat, pixels: seq<Pixel>)

  function TgaDecode(file: seq<Byte>): Option<Image> {
    if |file| < 18 || file[..2] != [0, 0] || file[3..12] != [0, 0, 0, 0, 0, 0, 0, 0, 0] then None
    else
      var kind, size, alpha := file[2], file[16] / 8, file[17] / 8;
      var width, height := Word(file[12], file[13]), Word(file[14], file[15]);
      if size < 1 || size > 4 || alpha != (if size == 2 || size == 4 then 1 else 0)
          || kind != (if size < 3 then 11 else 10) then None
      else
        var pixels := DecodePackets(file[18..], size);
        if pixels == None || |pixels.value| != width * height then None
        else Some(Image(width, height, size, pixels.value))
  }

  function Flat(rows: seq<seq<Pixel>>): seq<Pixel> {
    if rows == [] then [] else Flat(rows[..|rows| - 1]) + rows[|rows| - 1]
  }

  /** Rows from the bottom up; flipping takes the first row for the bottom one. */
  function FromBottom(rows: seq<seq<Pixel>>, flip: bool): (r: seq<seq<Pixel>>)
    ensures |r| == |rows|
  {
    if flip then rows else seq(|rows|, i requires 0 <= i < |rows| => rows[|rows| - 1 - i])
  }

  ghost predicate IsPicture(rows: seq<seq<Pixel>>, x: nat, comp: nat) {
    1 <= comp <= 4 && forall row :: row in rows ==> |row| == x && OfSize(row, comp)
  }

  lemma {:induction false} FlatSize(rows: seq<seq<Pixel>>, x: nat)
    requires forall row :: row in rows ==> |row| == x
    ensures |Flat(rows)| == x * |rows|
  {
    if rows != [] {
      var last := |rows| - 1;
      assert forall row :: row in rows[..last] ==> row in rows;
      FlatSize(rows[..last], x);
      assert rows[last] in rows && last + 1 == |rows|;
      MulNext(last, x);
    }
  }

  lemma FlatNothing()
    ensures Flat([]) == []
  {}

  lemma FlatNext(rows: seq<seq<Pixel>>, k: nat)
    requires k < |rows|
    ensures Flat(rows[..k + 1]) == Flat(rows[..k]) + rows[k]
  {
    assert rows[..k + 1][..k] == rows[..k];
  }

  /** The loop over the rows, from the bottom one up. */
  method WriteRows(s: ImageWriter, rows: seq<seq<Pixel>>, x: nat, comp: nat, flip: bool) returns (ghost b: seq<Byte>)
    requires s.Valid() && IsPicture(rows, x, comp)
    modifies s, s.buffer
    ensures s.Valid() && s.buffer == old(s.buffer) && s.Contents() == old(s.Contents()) + b
    ensures Packs(b, comp, Flat(FromBottom(rows, flip)))
  {
    hide Packs, OfSize, Flat;
    var y := |rows|;
    var j, jend, jdir: int := y - 1, -1, -1;
    if flip { j, jend, jdir := 0, y, 1; }
    ghost var k, all := 0, FromBottom(rows, flip);
    b := [];
    PacksNothing(comp);
    assert all[..0] == [] && Flat([]) == [] by { FlatNothing(); }
    while j != jend
      invariant 0 <= k <= y && j == if flip then k else y - 1 - k
      invariant s.Valid() && s.buffer == old(s.buffer) && s.Contents() == old(s.Contents()) + b
      invariant Packs(b, comp, Flat(all[..k]))
      decreases y - k
    {
      assert rows[j] in rows && all[k] == rows[j];
      FlatNext(all, k);
      ghost var row := WriteRow(s, rows[j], comp);
      PacksConcat(b, row, comp, Flat(all[..k]), rows[j]);
      b := b + row;
      j, k := j + jdir, k + 1;
    }
    assert all[..k] == all;
  }

  method WriteHeader(s: ImageWriter, x: nat, y: nat, comp: nat)
    requires s.Valid() && s.Contents() == [] && s.bufUsed == 0 && 1 <= comp <= 4
    modifies s`sent
    ensures s.Valid() && s.bufUsed == 0 && s.Contents() == Header(x, y, comp)
  {
    var bytes := Header(x, y, comp);
    hide Header;
    for i := 0 to |bytes|
      invariant s.Valid() && s.bufUsed == 0 && s.Contents() == bytes[..i]
    {
      s.Putc(bytes[i]);
    }
    assert bytes[..|bytes|] == bytes;
  }

  lemma HeaderFields(x: nat, y: nat, comp: nat)
    requires 1 <= comp <= 4
    ensures var h := Header(x, y, comp);
      h[..2] == [0, 0] && h[2] == (if comp < 3 then 11 else 10) && h[16] / 8 == comp
      && h[17] / 8 == (if comp == 2 || comp == 4 then 1 else 0)
      && Word(h[12], h[13]) == x % 65536 && Word(h[14], h[15]) == y % 65536
  {
    LowWord(x);
    LowWord(y);
  }

  lemma LowWord(v: nat)
    ensures Word(UChar(v), UChar(v / 256)) == v % 65536
  {
    var low, high, rest := v % 256, v / 256 % 256, v / 65536;
    assert v / 256 == 256 * rest + high;
    assert v == 65536 * rest + (256 * high + low);
  }

  lemma HeaderReadBack(x: nat, y: nat, comp: nat, b: seq<Byte>, pixels: seq<Pixel>)
    requires 1 <= comp <= 4 && DecodePackets(b, comp) == Some(pixels) && |pixels| == x * y
    ensures TgaDecode(Header(x, y, comp) + b) == Some(Image(x, y, comp, pixels)) <==> x < 65536 && y < 65536
  {
    hide DecodePackets, Word;
    HeaderFields(x, y, comp);
    var h := Header(x, y, comp);
    hide Header;
    assert (h + b)[18..] == b && (h + b)[..2] == h[..2];
  }

  /** Writes an image as a TGA file; a reader gets it back unless a dimension does not fit 16 bits. */
  method WriteTga(rows: seq<seq<Pixel>>, x: nat, comp: nat, flip: bool) returns (file: seq<Byte>)
    requires IsPicture(rows, x, comp)
    ensures TgaDecode(file) == Some(Image(x, |rows|, comp, Flat(FromBottom(rows, flip)))) <==>
      x < 65536 && |rows| < 65536
  {
    hide Packs, Header, TgaDecode, Flat, OfSize;
    var s := new ImageWriter();
    WriteHeader(s, x, |rows|, comp);
    ghost var b := WriteRows(s, rows, x, comp, flip);
    s.Flush();
    file := s.sent;
    ghost var all := FromBottom(rows, flip);
    assert forall row :: row in all ==> row in rows;
    FlatSize(all, x);
    PacksAll(b, comp, Flat(all));
    HeaderReadBack(x, |rows|, comp, b, Flat(all));
  }

  lemma PacksAll(b: seq<Byte>, size: nat, pixels: seq<Pixel>)
    requires 1 <= size <= 4 && Packs(b, size, pixels)
    ensures DecodePackets(b, size) == Some(pixels)
  {
    assert b + [] == b && pixels + [] == pixels;
    assert DecodePackets([], size) == Some([]);
    assert DecodePackets(b + [], size) == Prepend(pixels, DecodePackets([], size));
  }
}
