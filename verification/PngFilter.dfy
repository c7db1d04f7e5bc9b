/** The line filters of a PNG picture (RFC 2083 section 6): the filters the writer applies and the
    proof that a reader undoes them, whichever filter each line gets. */
module PngFilter {
  import opened Arithmetic
  import opened Wrappers
  import opened Inflate

  // ---------- Pictures ----------

  /** Pixels of n bytes each, rows `stride` bytes apart; `flip` writes the last row first. */
  datatype Picture = Picture(pixels: seq<Byte>, stride: nat, width: nat, height: nat, n: nat, flip: bool) {
    ghost predicate Valid() {
      1 <= n <= 4 && width > 0 && height > 0 && width * n <= stride
      && stride * (height - 1) + width * n <= |pixels|
    }
  }

  function LineLength(p: Picture): nat { p.width * p.n }

  function RowStart(p: Picture, row: nat): nat { p.stride * row }

  /** The row of pixels that becomes line y. */
  function RowIndex(p: Picture, y: nat): nat
    requires y < p.height
  {
    if p.flip then p.height - 1 - y else y
  }

  function Line(p: Picture, y: nat): (line: seq<Byte>)
    requires p.Valid() && y < p.height
    ensures |line| == LineLength(p)
  {
    RowInside(p, RowIndex(p, y));
    p.pixels[RowStart(p, RowIndex(p, y))..][..LineLength(p)]
  }

  /** The line before line y; zeros before the first. */
  function Prior(p: Picture, y: nat): (line: seq<Byte>)
    requires p.Valid() && y < p.height
    ensures |line| == LineLength(p)
  {
    if y == 0 then Zeros(LineLength(p)) else Line(p, y - 1)
  }

  function Lines(p: Picture, y: nat): (lines: seq<seq<Byte>>)
    requires p.Valid() && y <= p.height
    ensures |lines| == y
  {
    if y == 0 then [] else Lines(p, y - 1) + [Line(p, y - 1)]
  }

  lemma RowInside(p: Picture, row: nat)
    requires p.Valid() && row < p.height
    ensures RowStart(p, row) + LineLength(p) <= |p.pixels|
  {
    MulMonotone(row, p.height - 1, p.stride);
  }

  /** The signed distance from a line to the one before it. */
  function SignedStride(p: Picture): int { if p.flip then 0 - p.stride else p.stride }

  lemma LineStarts(p: Picture, y: nat)
    requires p.Valid() && 0 < y < p.height
    ensures RowStart(p, RowIndex(p, y - 1)) == RowStart(p, RowIndex(p, y)) - SignedStride(p)
  {}

  function Zeros(n: nat): (z: seq<Byte>)
    ensures |z| == n
  {
    seq(n, _ => 0)
  }

  // ---------- Prediction ----------

  function Paeth(a: Byte, b: Byte, c: Byte): Byte {
    var p := a + b - c;
    var pa, pb, pc := Abs(p - a), Abs(p - b), Abs(p - c);
    if pa <= pb && pa <= pc then a
    else if pb <= pc then b
    else c
  }

  /** The neighbour nearest to a + b - c; ties go to the left, then to the upper neighbour. */
  lemma PaethIsNearest(a: Byte, b: Byte, c: Byte)
    ensures var p, r := a + b - c, Paeth(a, b, c);
      (r == a || r == b || r == c)
      && Abs(p - r) <= Abs(p - a) && Abs(p - r) <= Abs(p - b) && Abs(p - r) <= Abs(p - c)
      && (r == a || Abs(p - r) < Abs(p - a))
      && (r == a || r == b || Abs(p - r) < Abs(p - b))
  {}

  /** What filter type `t` predicts from the left, upper and upper left neighbours. */
  function Predictor(t: nat, a: Byte, b: Byte, c: Byte): Byte {
    if t == 1 then a
    else if t == 2 then b
    else if t == 3 then (a + b) / 2
    else if t == 4 then Paeth(a, b, c)
    else 0
  }

  /** The byte one pixel to the left; zero in the first pixel. */
  function Left(line: seq<Byte>, n: nat, i: nat): Byte
    requires i < |line|
  {
    if i < n then 0 else line[i - n]
  }

  // ---------- The reader ----------

  /** Undoes filter `t` on a line, byte by byte, from the bytes already recovered. */
  function Reconstruct(t: nat, n: nat, line: seq<Byte>, prior: seq<Byte>): (r: seq<Byte>)
    requires n > 0 && |line| <= |prior|
    ensures |r| == |line|
  {
    if line == [] then []
    else
      var i := |line| - 1;
      var r := Reconstruct(t, n, line[..i], prior);
      r + [UChar(line[i] + Predictor(t, if i < n then 0 else r[i - n], prior[i], Left(prior, n, i)))]
  }

  /** The lines of a filtered picture: every line is a filter type and `len` filtered bytes. */
  function Unfilter(filt: seq<Byte>, len: nat, n: nat, rows: nat): (r: Option<seq<seq<Byte>>>)
    requires n > 0
    ensures r.Some? ==> |r.value| == rows && forall line :: line in r.value ==> |line| == len
  {
    if rows == 0 then if filt == [] then Some([]) else None
    else if |filt| < len + 1 || filt[|filt| - len - 1] > 4 then None
    else
      var start := |filt| - len - 1;
      var before := Unfilter(filt[..start], len, n, rows - 1);
      if before == None then None
      else
        var prior := if rows == 1 then Zeros(len) else before.value[rows - 2];
        Some(before.value + [Reconstruct(filt[start], n, filt[start + 1..], prior)])
  }

  // ---------- The filters ----------

  /** Subtraction modulo 256. */
  function Minus(x: int, y: int): Byte { UChar(x - y) }

  function FilterByte(t: nat, n: nat, line: seq<Byte>, prior: seq<Byte>, i: nat): Byte
    requires i < |line| <= |prior|
  {
    Minus(line[i], Predictor(t, Left(line, n, i), prior[i], Left(prior, n, i)))
  }

  function Filtered(t: nat, n: nat, line: seq<Byte>, prior: seq<Byte>): (r: seq<Byte>)
    requires |line| <= |prior|
    ensures |r| == |line|
  {
    seq(|line|, i requires 0 <= i < |line| => FilterByte(t, n, line, prior, i))
  }

  lemma WrapBack(x: Byte, p: Byte)
    ensures UChar(Minus(x, p) + p) == x
  {}

  /** One step of the reader on a filtered line whose beginning it has recovered. */
  lemma ReconstructNext(t: nat, n: nat, line: seq<Byte>, prior: seq<Byte>, i: nat)
    requires n > 0 && i < |line| <= |prior|
    requires Reconstruct(t, n, Filtered(t, n, line, prior)[..i], prior) == line[..i]
    ensures Reconstruct(t, n, Filtered(t, n, line, prior)[..i + 1], prior) == line[..i] + [line[i]]
  {
    hide UChar, Minus, Predictor;
    var f := Filtered(t, n, line, prior);
    var g := f[..i + 1];
    assert |g| - 1 == i && g[..i] == f[..i] && g[i] == FilterByte(t, n, line, prior, i);
    WrapBack(line[i], Predictor(t, Left(line, n, i), prior[i], Left(prior, n, i)));
  }

  lemma {:induction false} ReconstructPrefix(t: nat, n: nat, line: seq<Byte>, prior: seq<Byte>, k: nat)
    requires n > 0 && k <= |line| <= |prior|
    ensures Reconstruct(t, n, Filtered(t, n, line, prior)[..k], prior) == line[..k]
  {
    if k > 0 {
      hide Reconstruct, Filtered;
      ReconstructPrefix(t, n, line, prior, k - 1);
      ReconstructNext(t, n, line, prior, k - 1);
      assert line[..k] == line[..k - 1] + [line[k - 1]];
    }
  }

  /** A reader recovers a filtered line. */
  lemma FilterIsUndone(t: nat, n: nat, line: seq<Byte>, prior: seq<Byte>)
    requires n > 0 && |line| <= |prior|
    ensures Reconstruct(t, n, Filtered(t, n, line, prior), prior) == line
  {
    var f := Filtered(t, n, line, prior);
    ReconstructPrefix(t, n, line, prior, |line|);
    assert f[..|line|] == f && line[..|line|] == line;
  }

  // ---------- The writer ----------

  /** The filter that is run for a requested type; the first line has no line above it. */
  function Mapped(y: nat, t: nat): nat
    requires t <= 4
  {
    if y != 0 then t else [0, 1, 0, 5, 6][t]
  }

  /** Where line y lies in the pixels: from z on, with the line before it `d` bytes earlier. */
  ghost predicate Lies(pixels: seq<Byte>, line: seq<Byte>, prior: seq<Byte>, y: nat, z: int, d: int) {
    0 <= z && z + |line| <= |pixels| && |prior| == |line|
    && (forall i :: 0 <= i < |line| ==> pixels[z + i] == line[i])
    && if y > 0 then
         0 <= z - d && z - d + |line| <= |pixels|
         && (forall i :: 0 <= i < |line| ==> pixels[z - d + i] == prior[i])
       else
         forall i :: 0 <= i < |line| ==> prior[i] == 0
  }

  lemma LineLies(p: Picture, y: nat)
    requires p.Valid() && y < p.height
    ensures Lies(p.pixels, Line(p, y), Prior(p, y), y, RowStart(p, RowIndex(p, y)), SignedStride(p))
    ensures p.n <= LineLength(p)
  {
    assert p.n <= LineLength(p) by { MulMonotone(1, p.width, p.n); }
    RowInside(p, RowIndex(p, y));
    if y > 0 {
      LineStarts(p, y);
      RowInside(p, RowIndex(p, y - 1));
    }
    hide RowStart, LineLength, RowIndex, SignedStride;
  }

  /** Filter number t may look at every neighbour it needs. */
  predicate InReach(pixels: seq<Byte>, z: int, d: int, n: nat, t: nat, len: nat) {
    0 < n <= len && 0 <= z && z + len <= |pixels| && (2 <= t <= 4 ==> 0 <= z - d && z - d + len <= |pixels|)
  }

  /** What filter number t takes off byte i of a line that begins at pixels[z]. */
  function Offset(pixels: seq<Byte>, z: int, d: int, n: nat, t: nat, len: nat, i: nat): Byte
    requires InReach(pixels, z, d, n, t, len) && i < len
  {
    if i < n then
      if t == 2 then pixels[z + i - d]
      else if t == 3 then pixels[z + i - d] / 2
      else if t == 4 then Paeth(0, pixels[z + i - d], 0)
      else 0
    else
      if t == 1 then pixels[z + i - n]
      else if t == 2 then pixels[z + i - d]
      else if t == 3 then (pixels[z + i - n] + pixels[z + i - d]) / 2
      else if t == 4 then Paeth(pixels[z + i - n], pixels[z + i - d], pixels[z + i - d - n])
      else if t == 5 then pixels[z + i - n] / 2
      else if t == 6 then Paeth(pixels[z + i - n], 0, 0)
      else 0
  }

  /** The first `upTo` bytes of the buffer are filtered. */
  ghost predicate Done(buffer: array<Byte>, pixels: seq<Byte>, z: int, d: int, n: nat, t: nat, upTo: nat)
    requires InReach(pixels, z, d, n, t, buffer.Length) && upTo <= buffer.Length
    reads buffer
  {
    forall k :: 0 <= k < upTo ==> buffer[k] == Minus(pixels[z + k], Offset(pixels, z, d, n, t, buffer.Length, k))
  }

  lemma PaethEnds(a: Byte)
    ensures Paeth(a, 0, 0) == a && Paeth(0, a, 0) == a
  {}

  /** The mapped filter predicts what the requested one does, with zeros above the first line. */
  lemma OffsetPredicts(pixels: seq<Byte>, line: seq<Byte>, prior: seq<Byte>, y: nat, z: int, d: int, n: nat, t: nat,
      i: nat)
    requires 0 < n <= |line| && t <= 4 && i < |line|
    requires Lies(pixels, line, prior, y, z, d)
    ensures InReach(pixels, z, d, n, Mapped(y, t), |line|)
    ensures Offset(pixels, z, d, n, Mapped(y, t), |line|, i)
      == Predictor(t, Left(line, n, i), prior[i], Left(prior, n, i))
  {
    hide Paeth;
    PaethEnds(0);
    assert line[i] == pixels[z + i];
    if n <= i {
      assert line[i - n] == pixels[z + (i - n)];
    }
    if y > 0 {
      assert prior[i] == pixels[z - d + i];
      if n <= i {
        assert prior[i - n] == pixels[z - d + (i - n)];
      }
    }
  }

  /** The first pixel of a line has no left neighbour. */
  method EncodeFirstPixel(pixels: seq<Byte>, z: int, d: int, n: nat, t: nat, lineBuffer: array<Byte>)
    requires InReach(pixels, z, d, n, t, lineBuffer.Length)
    modifies lineBuffer
    ensures Done(lineBuffer, pixels, z, d, n, t, n)
  {
    hide Minus, Paeth;
    for i := 0 to n
      invariant Done(lineBuffer, pixels, z, d, n, t, i)
    {
      ByteIsItself(pixels[z + i]);
      match t {
        case 2 => lineBuffer[i] := Minus(pixels[z + i], pixels[z + i - d]);
        case 3 => lineBuffer[i] := Minus(pixels[z + i], pixels[z + i - d] / 2);
        case 4 => lineBuffer[i] := Minus(pixels[z + i], Paeth(0, pixels[z + i - d], 0));
        case _ => lineBuffer[i] := pixels[z + i];
      }
    }
  }

  lemma ByteIsItself(b: Byte)
    ensures Minus(b, 0) == b
  {}

  method EncodeOtherPixels(pixels: seq<Byte>, z: int, d: int, n: nat, t: nat, lineBuffer: array<Byte>)
    requires InReach(pixels, z, d, n, t, lineBuffer.Length) && 1 <= t <= 6
    requires Done(lineBuffer, pixels, z, d, n, t, n)
    modifies lineBuffer
    ensures Done(lineBuffer, pixels, z, d, n, t, lineBuffer.Length)
  {
    hide Minus, Paeth;
    match t {
      case 1 =>
        for i := n to lineBuffer.Length invariant Done(lineBuffer, pixels, z, d, n, t, i) {
          lineBuffer[i] := Minus(pixels[z + i], pixels[z + i - n]);
        }
      case 2 =>
        for i := n to lineBuffer.Length invariant Done(lineBuffer, pixels, z, d, n, t, i) {
          lineBuffer[i] := Minus(pixels[z + i], pixels[z + i - d]);
        }
      case 3 =>
        for i := n to lineBuffer.Length invariant Done(lineBuffer, pixels, z, d, n, t, i) {
          lineBuffer[i] := Minus(pixels[z + i], (pixels[z + i - n] as int + pixels[z + i - d]) / 2);
        }
      case 4 =>
        for i := n to lineBuffer.Length invariant Done(lineBuffer, pixels, z, d, n, t, i) {
          lineBuffer[i] := Minus(pixels[z + i], Paeth(pixels[z + i - n], pixels[z + i - d], pixels[z + i - d - n]));
        }
      case 5 =>
        for i := n to lineBuffer.Length invariant Done(lineBuffer, pixels, z, d, n, t, i) {
          lineBuffer[i] := Minus(pixels[z + i], pixels[z + i - n] / 2);
        }
      case 6 =>
        for i := n to lineBuffer.Length invariant Done(lineBuffer, pixels, z, d, n, t, i) {
          lineBuffer[i] := Minus(pixels[z + i], Paeth(pixels[z + i - n], 0, 0));
        }
    }
  }

  /** Writes line y, filtered, to the line buffer. */
  method EncodePngLine(p: Picture, y: nat, filterType: nat, lineBuffer: array<Byte>)
    requires p.Valid() && y < p.height && filterType <= 4 && lineBuffer.Length == LineLength(p)
    modifies lineBuffer
    ensures lineBuffer[..] == Filtered(filterType, p.n, Line(p, y), Prior(p, y))
  {
    var t := Mapped(y, filterType);
    var n, len, pixels := p.n, LineLength(p), p.pixels;
    var z, d := RowStart(p, RowIndex(p, y)), SignedStride(p);
    ghost var line, prior := Line(p, y), Prior(p, y);
    LineLies(p, y);
    OffsetPredicts(pixels, line, prior, y, z, d, n, filterType, 0);
    hide Minus, Paeth, Predictor, Line, Prior, Mapped, LineLength, RowStart, RowIndex, SignedStride, Offset, Lies,
      Left, InReach;
    if t == 0 {
      forall i | 0 <= i < len { lineBuffer[i] := pixels[z + i]; }
    } else {
      EncodeFirstPixel(pixels, z, d, n, t, lineBuffer);
      EncodeOtherPixels(pixels, z, d, n, t, lineBuffer);
    }
    forall i | 0 <= i < len
      ensures lineBuffer[i] == FilterByte(filterType, n, line, prior, i)
    {
      OffsetPredicts(pixels, line, prior, y, z, d, n, filterType, i);
    }
  }

  // ---------- The choice of filters ----------

  function SignedAbs(b: Byte): nat { if b < 128 then b else 256 - b }

  /** The sum of the bytes' magnitudes as signed chars. */
  function Roughness(line: seq<Byte>): nat {
    if line == [] then 0 else Roughness(line[..|line| - 1]) + SignedAbs(line[|line| - 1])
  }

  /** A 32-bit int, wrapping around. */
  function Int32(x: int): (r: int)
    ensures -0x8000_0000 <= r <= 0x7fff_ffff
  {
    (x + 0x8000_0000) % 0x1_0000_0000 - 0x8000_0000
  }

  lemma Int32Sum(x: int, y: int)
    ensures Int32(Int32(x) + y) == Int32(x + y)
  {}

  method Estimate(lineBuffer: array<Byte>) returns (est: int)
    ensures est == Int32(Roughness(lineBuffer[..]))
  {
    hide Int32;
    est := Int32(0);
    for i := 0 to lineBuffer.Length
      invariant est == Int32(Roughness(lineBuffer[..i]))
    {
      assert lineBuffer[..i + 1][..i] == lineBuffer[..i];
      Int32Sum(Roughness(lineBuffer[..i]), SignedAbs(lineBuffer[i]));
      est := Int32(est + SignedAbs(lineBuffer[i]));
    }
    assert lineBuffer[..lineBuffer.Length] == lineBuffer[..];
  }

  /** How bad filter t is for line y. */
  function Cost(p: Picture, y: nat, t: nat): (c: int)
    requires p.Valid() && y < p.height
    ensures c <= 0x7fff_ffff
  {
    Int32(Roughness(Filtered(t, p.n, Line(p, y), Prior(p, y))))
  }

  lemma {:induction false} RoughnessBound(line: seq<Byte>)
    ensures Roughness(line) <= 128 * |line|
  {
    if line != [] { RoughnessBound(line[..|line| - 1]); }
  }

  /** Lines below 2^24 bytes cost the sum of the magnitudes; the sum of a longer one may wrap around. */
  lemma CostIsSum(p: Picture, y: nat, t: nat)
    requires p.Valid() && y < p.height && LineLength(p) < 0x100_0000
    ensures Cost(p, y, t) == Roughness(Filtered(t, p.n, Line(p, y), Prior(p, y)))
  {
    hide Roughness, Filtered, LineLength, Line, Prior;
    RoughnessBound(Filtered(t, p.n, Line(p, y), Prior(p, y)));
  }

  /** The lowest-numbered of the cheapest filters below `limit`. */
  ghost predicate IsCheapest(p: Picture, y: nat, t: nat, limit: nat)
    requires p.Valid() && y < p.height
  {
    t < limit && forall f :: 0 <= f < limit ==>
        Cost(p, y, t) <= Cost(p, y, f) && (f < t ==> Cost(p, y, t) < Cost(p, y, f))
  }

  /** Filters line y with the forced filter, or the one that costs least. */
  method FilterLine(p: Picture, y: nat, force: int, lineBuffer: array<Byte>) returns (filterType: nat)
    requires p.Valid() && y < p.height && lineBuffer.Length == LineLength(p)
    modifies lineBuffer
    ensures filterType <= 4 && lineBuffer[..] == Filtered(filterType, p.n, Line(p, y), Prior(p, y))
    ensures if 0 <= force < 5 then filterType == force else IsCheapest(p, y, filterType, 5)
  {
    hide Filtered, Roughness, Line, Prior, LineLength, Int32;
    if 0 <= force < 5 {
      filterType := force;
      EncodePngLine(p, y, filterType, lineBuffer);
    } else {
      var bestFilter: nat, bestVal: int := 0, 0x7fff_ffff;
      filterType := 0;
      while filterType < 5
        invariant filterType <= 5 && bestFilter <= 4
        invariant if filterType == 0 then bestFilter == 0 && bestVal == 0x7fff_ffff
                  else IsCheapest(p, y, bestFilter, filterType) && bestVal == Cost(p, y, bestFilter)
      {
        EncodePngLine(p, y, filterType, lineBuffer);
        var est := Estimate(lineBuffer);
        if est < bestVal {
          bestVal := est;
          bestFilter := filterType;
        }
        filterType := filterType + 1;
      }
      if filterType != bestFilter {
        EncodePngLine(p, y, bestFilter, lineBuffer);
        filterType := bestFilter;
      }
    }
  }

  // ---------- The filtered picture ----------

  lemma {:induction false} LinesAt(p: Picture, k: nat, y: nat)
    requires p.Valid() && y < k <= p.height
    ensures Lines(p, k)[y] == Line(p, y)
  {
    if y < k - 1 { LinesAt(p, k - 1, y); }
  }

  /** One more filtered line gives the reader one more line. */
  lemma UnfilterNext(p: Picture, filt: seq<Byte>, t: Byte, y: nat)
    requires p.Valid() && y < p.height && t <= 4
    requires Unfilter(filt, LineLength(p), p.n, y) == Some(Lines(p, y))
    ensures Unfilter(filt + [t] + Filtered(t, p.n, Line(p, y), Prior(p, y)), LineLength(p), p.n, y + 1)
      == Some(Lines(p, y + 1))
  {
    hide Filtered, Line, LineLength, Reconstruct;
    var line := Filtered(t, p.n, Line(p, y), Prior(p, y));
    var all := filt + [t] + line;
    FilterIsUndone(t, p.n, Line(p, y), Prior(p, y));
    assert all[..|filt|] == filt && all[|filt| + 1..] == line;
    if y > 0 { LinesAt(p, y, y - 1); }
  }

  method CopyInto(a: array<Byte>, at: nat, bytes: seq<Byte>)
    requires at + |bytes| <= a.Length
    modifies a
    ensures a[..at + |bytes|] == old(a[..at]) + bytes
  {
    forall k | 0 <= k < |bytes| { a[at + k] := bytes[k]; }
  }

  /** Where line j starts in the filtered picture. */
  function FilteredAt(len: nat, j: nat): nat { j * (len + 1) }

  lemma NextLineFits(len: nat, j: nat, height: nat)
    requires j < height
    ensures FilteredAt(len, 0) == 0
    ensures FilteredAt(len, j + 1) == FilteredAt(len, j) + 1 + len <= FilteredAt(len, height)
  {
    assert (j + 1) * (len + 1) == j * (len + 1) + (len + 1);
    MulMonotone(j + 1, height, len + 1);
  }

  /** Filters all lines; whatever filters are used, a reader gets every line back. */
  method FilterPicture(p: Picture, force: int) returns (filt: array<Byte>)
    requires p.Valid()
    ensures fresh(filt) && filt.Length == FilteredAt(LineLength(p), p.height)
    ensures Unfilter(filt[..], LineLength(p), p.n, p.height) == Some(Lines(p, p.height))
  {
    hide Filtered, Line, LineLength, Unfilter, Prior, IsCheapest, Lines, FilteredAt;
    var len := LineLength(p);
    filt := new Byte[FilteredAt(len, p.height)];
    var lineBuffer := new Byte[len];
    NextLineFits(len, 0, p.height);
    assert filt[..0] == [];
    NoLines(p);
    for j := 0 to p.height
      invariant FilteredAt(len, j) <= filt.Length && fresh(filt) && fresh(lineBuffer) && lineBuffer != filt
      invariant Unfilter(filt[..FilteredAt(len, j)], len, p.n, j) == Some(Lines(p, j))
    {
      var filterType: nat := FilterLine(p, j, force, lineBuffer);
      NextLineFits(len, j, p.height);
      UnfilterNext(p, filt[..FilteredAt(len, j)], filterType, j);
      CopyInto(filt, FilteredAt(len, j), [filterType]);
      CopyInto(filt, FilteredAt(len, j) + 1, lineBuffer[..]);
    }
    assert filt[..filt.Length] == filt[..];
  }

  lemma NoLines(p: Picture)
    requires p.Valid()
    ensures Unfilter([], LineLength(p), p.n, 0) == Some(Lines(p, 0))
  {}
}
