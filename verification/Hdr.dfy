/** Run-length coded scanlines of Radiance HDR files: a reader and the writer whose bytes it reads back.
    The conversion of floating-point pixels to mantissas and exponent is not part of it. */
module Hdr {
  import opened Spans
  import opened Wrappers
  import opened Inflate

  // ---------- The reader ----------

  function Prepend(front: seq<Byte>, rest: Option<(seq<Byte>, seq<Byte>)>): Option<(seq<Byte>, seq<Byte>)> {
    if rest == None then None else Some((front + rest.value.0, rest.value.1))
  }

  /** The n bytes of a plane and what follows them: a count above 128 is a run, other counts announce
      literal bytes; zero is an error. */
  function DecodePlane(b: seq<Byte>, n: nat): (r: Option<(seq<Byte>, seq<Byte>)>)
    ensures r.Some? ==> |r.value.0| == n
    decreases n
  {
    if n == 0 then Some(([], b))
    else if |b| < 2 || b[0] == 0 then None
    else if b[0] > 128 then
      var len := b[0] - 128;
      if len > n then None else Prepend(Repeat(b[1], len), DecodePlane(b[2..], n - len))
    else
      var len := b[0];
      if len > n || |b| < 1 + len then None else Prepend(b[1..1 + len], DecodePlane(b[1 + len..], n - len))
  }

  /** The bytes are packets for exactly this piece of a plane, whatever follows. */
  ghost predicate Packs(b: seq<Byte>, piece: seq<Byte>) {
    forall rest, n: nat :: |piece| <= n ==> DecodePlane(b + rest, n) == Prepend(piece, DecodePlane(rest, n - |piece|))
  }

  lemma PrependNothing(d: Option<(seq<Byte>, seq<Byte>)>)
    ensures Prepend([], d) == d
  {
    assert d.Some? ==> [] + d.value.0 == d.value.0;
  }

  lemma PacksNothing()
    ensures Packs([], [])
  {
    hide DecodePlane, Prepend;
    forall rest, n: nat
      ensures DecodePlane([] + rest, n) == Prepend([], DecodePlane(rest, n))
    {
      assert [] + rest == rest;
      PrependNothing(DecodePlane(rest, n));
    }
  }

  lemma PacksConcat(a: seq<Byte>, b: seq<Byte>, p: seq<Byte>, q: seq<Byte>)
    requires Packs(a, p) && Packs(b, q)
    ensures Packs(a + b, p + q)
  {
    hide DecodePlane;
    forall rest, n: nat | |p + q| <= n
      ensures DecodePlane(a + b + rest, n) == Prepend(p + q, DecodePlane(rest, n - |p + q|))
    {
      assert a + b + rest == a + (b + rest);
      var d := DecodePlane(rest, n - |p| - |q|);
      assert d.Some? ==> p + (q + d.value.0) == p + q + d.value.0;
    }
  }

  lemma DumpPacket(data: seq<Byte>)
    requires 1 <= |data| <= 128
    ensures Packs([UChar(|data|)] + data, data)
  {
    forall rest, n: nat | |data| <= n
      ensures DecodePlane([UChar(|data|)] + data + rest, n) == Prepend(data, DecodePlane(rest, n - |data|))
    {
      var b := [UChar(|data|)] + data + rest;
      assert b[1..1 + |data|] == data && b[1 + |data|..] == rest && b[0] == |data|;
    }
  }

  lemma RunPacket(v: Byte, len: nat)
    requires 1 <= len <= 127
    ensures Packs([UChar(len + 128)] + [v], Repeat(v, len))
  {
    var packet := [UChar(len + 128)] + [v];
    forall rest, n: nat | len <= n
      ensures DecodePlane(packet + rest, n) == Prepend(Repeat(v, len), DecodePlane(rest, n - len))
    {
      var b := packet + rest;
      assert b[0] == len + 128 && b[1] == v && b[2..] == rest;
    }
  }

  // ---------- The plane writer ----------

  method WriteRunData(out: seq<Byte>, length: nat, databyte: Byte) returns (r: seq<Byte>)
    requires 1 <= length && length + 128 <= 255
    ensures r == out + ([UChar(length + 128)] + [databyte])
  {
    r := out + [UChar(length + 128)];
    r := r + [databyte];
  }

  method WriteDumpData(out: seq<Byte>, data: seq<Byte>) returns (r: seq<Byte>)
    requires 1 <= |data| <= 128
    ensures r == out + ([UChar(|data|)] + data)
  {
    r := out + [UChar(|data|)];
    r := r + data;
  }

  /** Packets for a plane: the written bytes are `out` and packets for `piece`. */
  ghost predicate Wrote(out: seq<Byte>, now: seq<Byte>, piece: seq<Byte>) {
    out <= now && Packs(now[|out|..], piece)
  }

  lemma WroteMore(out: seq<Byte>, now: seq<Byte>, piece: seq<Byte>, b: seq<Byte>, more: seq<Byte>)
    requires Wrote(out, now, piece) && Packs(b, more)
    ensures Wrote(out, now + b, piece + more)
  {
    PacksConcat(now[|out|..], b, piece, more);
    assert (now + b)[|out|..] == now[|out|..] + b;
  }

  /** Dumps of at most 128 bytes up to r. */
  method DumpUpTo(out: seq<Byte>, comp: seq<Byte>, start: nat, r: nat, ghost base: seq<Byte>) returns (now: seq<Byte>)
    requires start <= r <= |comp| && Wrote(base, out, comp[..start])
    ensures Wrote(base, now, comp[..r])
  {
    hide Packs, Wrote;
    now := out;
    var x := start;
    while x < r
      invariant x <= r && Wrote(base, now, comp[..x])
    {
      var len := r - x;
      if len > 128 { len := 128; }
      DumpPacket(comp[x..x + len]);
      WroteMore(base, now, comp[..x], [UChar(len)] + comp[x..x + len], comp[x..x + len]);
      assert comp[..x] + comp[x..x + len] == comp[..x + len];
      now := WriteDumpData(now, comp[x..x + len]);
      x := x + len;
    }
  }

  /** Runs of at most 127 bytes up to r. */
  method RunUpTo(out: seq<Byte>, comp: seq<Byte>, start: nat, r: nat, ghost base: seq<Byte>) returns (now: seq<Byte>)
    requires start <= r <= |comp| && Wrote(base, out, comp[..start])
    requires forall k :: start <= k < r ==> comp[k] == comp[start]
    ensures Wrote(base, now, comp[..r])
  {
    hide Packs, Wrote;
    now := out;
    var x := start;
    while x < r
      invariant start <= x <= r && Wrote(base, now, comp[..x])
    {
      var len := r - x;
      if len > 127 { len := 127; }
      RunPacket(comp[x], len);
      WroteMore(base, now, comp[..x], [UChar(len + 128)] + [comp[x]], Repeat(comp[x], len));
      assert comp[..x] + Repeat(comp[x], len) == comp[..x + len];
      now := WriteRunData(now, len, comp[x]);
      x := x + len;
    }
  }

  /** Writes a plane: literal bytes up to the next run of three equal bytes, then the run. */
  method WritePlane(out: seq<Byte>, comp: seq<Byte>) returns (now: seq<Byte>)
    ensures Wrote(out, now, comp)
  {
    hide Packs, Wrote;
    var width := |comp|;
    now := out;
    var x := 0;
    NothingWrote(out);
    assert comp[..0] == [];
    while x < width
      invariant 0 <= x <= width && Wrote(out, now, comp[..x])
    {
      var r := x;
      while r + 2 < width
        invariant x <= r <= width
      {
        if comp[r] == comp[r + 1] == comp[r + 2] { break; }
        r := r + 1;
      }
      if r + 2 >= width { r := width; }
      var isRun := r + 2 < width;
      now := DumpUpTo(now, comp, x, r, out);
      x := r;
      if isRun {
        while r < width && comp[r] == comp[x]
          invariant x <= r <= width && forall k :: x <= k < r ==> comp[k] == comp[x]
        {
          r := r + 1;
        }
        now := RunUpTo(now, comp, x, r, out);
        x := r;
      }
    }
    assert comp[..width] == comp;
  }

  lemma NothingWrote(out: seq<Byte>)
    ensures Wrote(out, out, [])
  {
    PacksNothing();
    assert out[|out|..] == [];
  }

  // ---------- Scanlines ----------

  /** Three mantissas and the shared exponent. */
  datatype Rgbe = Rgbe(r: Byte, g: Byte, b: Byte, e: Byte)

  function Part(p: Rgbe, c: nat): Byte {
    if c == 0 then p.r else if c == 1 then p.g else if c == 2 then p.b else p.e
  }

  /** The plane of component c. */
  function Plane(line: seq<Rgbe>, c: nat): (plane: seq<Byte>)
    ensures |plane| == |line|
  {
    seq(|line|, i requires 0 <= i < |line| => Part(line[i], c))
  }

  function Flat(line: seq<Rgbe>): seq<Byte> {
    if line == [] then []
    else
      var p := line[|line| - 1];
      Flat(line[..|line| - 1]) + [p.r, p.g, p.b, p.e]
  }

  function TakeFlat(b: seq<Byte>, width: nat): Option<(seq<Rgbe>, seq<Byte>)> {
    if width == 0 then Some(([], b))
    else if |b| < 4 then None
    else
      var rest := TakeFlat(b[4..], width - 1);
      if rest == None then None else Some(([Rgbe(b[0], b[1], b[2], b[3])] + rest.value.0, rest.value.1))
  }

  function DecodePlanes(b: seq<Byte>, width: nat, c: nat): Option<(seq<seq<Byte>>, seq<Byte>)> {
    if c == 0 then Some(([], b))
    else
      var before := DecodePlanes(b, width, c - 1);
      if before == None then None
      else
        var plane := DecodePlane(before.value.1, width);
        if plane == None then None else Some((before.value.0 + [plane.value.0], plane.value.1))
  }

  predicate AreFour(planes: seq<seq<Byte>>, width: nat) {
    |planes| == 4 && |planes[0]| == |planes[1]| == |planes[2]| == |planes[3]| == width
  }

  function Zip(planes: seq<seq<Byte>>, width: nat): seq<Rgbe>
    requires AreFour(planes, width)
  {
    seq(width, i requires 0 <= i < width => Rgbe(planes[0][i], planes[1][i], planes[2][i], planes[3][i]))
  }

  /** A scanline of the given width and what follows it. */
  function DecodeScanline(b: seq<Byte>, width: nat): Option<(seq<Rgbe>, seq<Byte>)> {
    if width < 8 || width >= 32768 then TakeFlat(b, width)
    else if |b| < 4 || b[0] != 2 || b[1] != 2 || b[2] as nat * 256 + b[3] != width then None
    else
      var planes := DecodePlanes(b[4..], width, 4);
      if planes == None || !AreFour(planes.value.0, width) then None
      else Some((Zip(planes.value.0, width), planes.value.1))
  }

  lemma {:induction false} FlatTaken(line: seq<Rgbe>, rest: seq<Byte>)
    ensures TakeFlat(Flat(line) + rest, |line|) == Some((line, rest))
  {
    if line == [] {
      assert [] + rest == rest;
    } else {
      var p, more := line[0], line[1..];
      FlatFirst(line);
      var b := Flat(line) + rest;
      assert b == [p.r, p.g, p.b, p.e] + (Flat(more) + rest);
      assert b[4..] == Flat(more) + rest;
      FlatTaken(more, rest);
      assert [p] + more == line;
    }
  }

  lemma {:induction false} FlatFirst(line: seq<Rgbe>)
    requires line != []
    ensures var p := line[0]; Flat(line) == [p.r, p.g, p.b, p.e] + Flat(line[1..])
  {
    if |line| == 1 {
      assert line[..0] == [] && line[1..] == [];
    } else {
      var last := |line| - 1;
      FlatFirst(line[..last]);
      assert line[..last][1..] == line[1..][..last - 1];
    }
  }

  /** The planes of the first c components. */
  function Planes(line: seq<Rgbe>, c: nat): (planes: seq<seq<Byte>>)
    ensures |planes| == c
  {
    seq(c, i requires 0 <= i < c => Plane(line, i))
  }

  /** Bytes that decode to the first c planes. */
  ghost predicate PacksPlanes(b: seq<Byte>, line: seq<Rgbe>, c: nat) {
    forall rest :: DecodePlanes(b + rest, |line|, c) == Some((Planes(line, c), rest))
  }

  lemma PlanesNext(b: seq<Byte>, line: seq<Rgbe>, c: nat, packets: seq<Byte>)
    requires PacksPlanes(b, line, c) && Packs(packets, Plane(line, c))
    ensures PacksPlanes(b + packets, line, c + 1)
  {
    hide Plane;
    forall rest
      ensures DecodePlanes(b + packets + rest, |line|, c + 1) == Some((Planes(line, c + 1), rest))
    {
      assert b + packets + rest == b + (packets + rest);
      assert DecodePlane(rest, 0) == Some(([], rest));
      assert Plane(line, c) + [] == Plane(line, c);
      assert Planes(line, c + 1) == Planes(line, c) + [Plane(line, c)];
    }
  }

  lemma ScanlineReadBack(line: seq<Rgbe>, b: seq<Byte>, rest: seq<Byte>)
    requires 8 <= |line| < 32768 && PacksPlanes(b, line, 4)
    ensures DecodeScanline([2, 2, UChar(|line| / 256), UChar(|line|)] + b + rest, |line|) == Some((line, rest))
  {
    hide DecodePlanes;
    var all := [2, 2, UChar(|line| / 256), UChar(|line|)] + b + rest;
    assert all[4..] == b + rest;
    assert all[2] as nat * 256 + all[3] == |line|;
    assert Zip(Planes(line, 4), |line|) == line;
  }

  /** The bytes of a scanline, whatever follows them. */
  ghost predicate IsScanline(b: seq<Byte>, line: seq<Rgbe>) {
    forall rest :: DecodeScanline(b + rest, |line|) == Some((line, rest))
  }

  method WriteFlat(line: seq<Rgbe>) returns (out: seq<Byte>)
    ensures out == Flat(line)
  {
    out := [];
    for x := 0 to |line|
      invariant out == Flat(line[..x])
    {
      assert line[..x + 1][..x] == line[..x];
      out := out + [line[x].r, line[x].g, line[x].b, line[x].e];
    }
    assert line[..|line|] == line;
  }

  /** Four planes behind each other, filled for the first x pixels. */
  ghost predicate Filled(scratch: seq<Byte>, line: seq<Rgbe>, x: nat)
    requires |scratch| == 4 * |line| && x <= |line|
  {
    forall k :: 0 <= k < x ==>
      scratch[k] == line[k].r && scratch[k + |line|] == line[k].g
      && scratch[k + |line| * 2] == line[k].b && scratch[k + |line| * 3] == line[k].e
  }

  /** Distributes the pixels over four planes in one buffer. */
  method FillScratch(line: seq<Rgbe>, scratch: array<Byte>)
    requires scratch.Length == 4 * |line|
    modifies scratch
    ensures Filled(scratch[..], line, |line|)
  {
    var width := |line|;
    for x := 0 to width
      invariant Filled(scratch[..], line, x)
    {
      scratch[x] := line[x].r;
      scratch[x + width] := line[x].g;
      scratch[x + width * 2] := line[x].b;
      scratch[x + width * 3] := line[x].e;
    }
  }

  lemma ScratchPlane(line: seq<Rgbe>, scratch: seq<Byte>, c: nat)
    requires c < 4 && |scratch| == 4 * |line| && Filled(scratch, line, |line|)
    ensures |line| * c + |line| <= |scratch| && scratch[|line| * c..|line| * c + |line|] == Plane(line, c)
  {
    assert c == 0 || c == 1 || c == 2 || c == 3;
    assert |line| * c + |line| <= 4 * |line|;
    var part := scratch[|line| * c..|line| * c + |line|];
    forall k | 0 <= k < |line|
      ensures part[k] == Part(line[k], c)
    {
      assert part[k] == scratch[k + |line| * c];
    }
  }

  /** Writes a scanline: flat when it is narrower than 8 or wider than 32767 pixels, as four run-length
      coded planes otherwise. */
  method WriteHdrScanline(line: seq<Rgbe>) returns (out: seq<Byte>)
    ensures IsScanline(out, line)
  {
    var width := |line|;
    if width < 8 || width >= 32768 {
      out := WriteFlat(line);
      forall rest
        ensures DecodeScanline(out + rest, |line|) == Some((line, rest))
      {
        FlatTaken(line, rest);
      }
    } else {
      var scratch := new Byte[4 * width];
      FillScratch(line, scratch);
      var head := [2, 2, UChar(width / 256), UChar(width)];
      out := head;
      ghost var body, planes := [], scratch[..];
      hide Packs, PacksPlanes, Plane, DecodeScanline;
      NoPlanes(line);
      for c := 0 to 4
        invariant out == head + body && PacksPlanes(body, line, c) && scratch[..] == planes
      {
        var comp := scratch[width * c..width * c + width];
        ScratchPlane(line, scratch[..], c);
        ghost var before := out;
        out := WritePlane(out, comp);
        ghost var packets := out[|before|..];
        PlanesNext(body, line, c, packets);
        body := body + packets;
      }
      forall rest
        ensures DecodeScanline(out + rest, |line|) == Some((line, rest))
      {
        ScanlineReadBack(line, body, rest);
      }
    }
  }

  lemma NoPlanes(line: seq<Rgbe>)
    ensures PacksPlanes([], line, 0)
  {
    assert forall rest: seq<Byte> :: [] + rest == rest;
    assert Planes(line, 0) == [];
  }
}
