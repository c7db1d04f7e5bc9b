/** From text to symbol: version and error correction level, data bits with padding, and the proof
    that the finished grid alone gives the text back. */
module QrEncode {
  import opened Arithmetic
  import opened Bits
  import opened BitReader
  import opened Wrappers
  import opened QrGrid
  import opened QrScan
  import opened QrPatterns
  import opened QrCapacity
  import opened QrFreeCells
  import opened QrBits
  import opened QrMask
  import opened QrFormat
  import opened QrTables
  import opened QrBlocks
  import opened QrSegment
  import opened QrReader
  import opened QrCode

  // ---------- Reading a symbol ----------

  /** The unmasked modules of the data cells, in scan order. */
  function DataBits(g: Grid, version: nat, ecl: Ecc, mask: nat): (bits: seq<bool>)
    requires IsVersion(version) && Square(g, Size(version))
    ensures |bits| == |DataCells(version, ecl)|
  {
    ReadCells(Masked(g, FunctionGrid(version, ecl), mask), DataCells(version, ecl))
  }

  function PackPrefix(bits: seq<bool>, n: nat): (raw: seq<bv8>)
    requires 8 * n <= |bits|
    ensures |raw| == n
  {
    PackCodewords(bits[..8 * n])
  }

  /** The codewords under a known level and mask. */
  function ReadCodewords(g: Grid, version: nat, ecl: Ecc, mask: nat): (raw: seq<bv8>)
    requires IsVersion(version) && Square(g, Size(version))
    ensures |raw| == RawSize(version)
  {
    DataBitsSuffice(g, version, ecl, mask);
    PackPrefix(DataBits(g, version, ecl, mask), RawSize(version))
  }

  /** All codewords of a version. */
  function RawSize(version: nat): nat
    requires IsVersion(version)
  {
    RawPositive(version);
    NumRawDataModules(version) / 8
  }

  lemma RawPositive(version: nat)
    requires IsVersion(version)
    ensures NumRawDataModules(version) >= 0
  {
    RawModulesRange(version);
  }

  lemma RawOfLayout(version: nat, ecl: Ecc)
    requires IsVersion(version)
    ensures RawSize(version) == BlockLayout(version, ecl).rawCodewords
  {
    hide NumBlocks, EccPerBlock, NumRawDataModules, Fits;
  }

  lemma DataBitsSuffice(g: Grid, version: nat, ecl: Ecc, mask: nat)
    requires IsVersion(version) && Square(g, Size(version))
    ensures 8 * RawSize(version) <= |DataBits(g, version, ecl, mask)|
  {
    hide DataCells, BlockLayout, RawSize;
    RawOfLayout(version, ecl);
    RawIsEnough(version, ecl);
  }

  /** The data part of codewords of a known level. */
  function ReadDataCodewords(raw: seq<bv8>, version: nat, ecl: Ecc): seq<bv8>
    requires IsVersion(version) && |raw| == RawSize(version)
  {
    LayoutIsValid(version, ecl);
    RawOfLayout(version, ecl);
    ReadData(BlockLayout(version, ecl), raw, BlockLayout(version, ecl).numBlocks)
  }

  /** The data bits of a symbol: level and mask from the format bits, then unmasking, the zigzag, and
      de-interleaving without the ECC bytes. */
  function SymbolData(g: Grid, version: nat): seq<bool>
    requires IsVersion(version) && Square(g, Size(version))
  {
    var (ecl, mask) := DecodeFormat(ReadFormat(g));
    var raw := ReadCodewords(g, version, ecl, mask);
    CodewordBits(ReadDataCodewords(raw, version, ecl))
  }

  /** The text of a symbol, from its grid alone. */
  function ReadSymbol(g: Grid, version: nat): Option<string>
    requires IsVersion(version) && Square(g, Size(version))
  {
    ReadSegments(SymbolData(g, version), 0, version)
  }

  lemma RawIsEnough(version: nat, ecl: Ecc)
    requires IsVersion(version)
    ensures 8 * BlockLayout(version, ecl).rawCodewords <= |DataCells(version, ecl)|
  {
    hide NumBlocks, EccPerBlock, FreeCells, Scan, FunctionGrid, NumRawDataModules, Fits;
    FreeCellsCount(version, ecl);
  }

  lemma {:induction false} FreeCellsUnchanged(g: Grid, marks: seq<Mark>, isFunction: Grid, cells: seq<Cell>)
    requires Square(g, |g|) && Square(isFunction, |g|) && MarksInside(marks, |g|) && OnFunction(marks, isFunction)
    requires AllInside(cells, |g|) && forall c :: c in cells ==> !At(isFunction, c)
    ensures ReadCells(DrawMarks(g, marks), cells) == ReadCells(g, cells)
  {
    forall i | 0 <= i < |cells|
      ensures At(DrawMarks(g, marks), cells[i]) == At(g, cells[i])
    {
      var c := cells[i];
      assert !Marked(marks, c);
      ReserveIsMarked(g, marks, c);
    }
  }

  lemma DataCellsFacts(version: nat, ecl: Ecc)
    requires IsVersion(version)
    ensures NoRepeats(DataCells(version, ecl)) && forall c :: c in DataCells(version, ecl) ==>
      !At(FunctionGrid(version, ecl), c)
  {
    hide Scan, FunctionGrid;
    ScanVisitsOnce(Size(version));
    FreeNoRepeats(Scan(Size(version)), FunctionGrid(version, ecl));
  }

  /** The unmasked data cells of a finished grid hold the codewords. */
  lemma CodewordsReadBack(version: nat, ecl: Ecc, codewords: seq<bv8>, mask: nat)
    requires IsVersion(version) && mask < 8 && 8 * |codewords| <= |DataCells(version, ecl)|
    ensures var f := FunctionGrid(version, ecl);
      ReadCells(Masked(Trial(CodedGrid(version, ecl, codewords), f, ecl, mask), f, mask),
          DataCells(version, ecl))[..8 * |codewords|]
        == CodewordBits(codewords)
  {
    hide FunctionGrid, DataCells, Masked, DrawMarks, FormatMarks, FormatBits, Prepared, CodewordBits, Paint,
      OnFunction, NoRepeats, AllInside;
    var f, cells := FunctionGrid(version, ecl), DataCells(version, ecl);
    var coded := CodedGrid(version, ecl, codewords);
    TrialFromStamp(version, ecl, coded, mask);
    FormatOnFunction(version, ecl, FormatBits(ecl, mask as bv32));
    DataCellsFacts(version, ecl);
    assert (mask + 1 - 1) as bv32 == mask as bv32;
    FreeCellsUnchanged(coded, FormatMarks(Size(version), FormatBits(ecl, mask as bv32)), f, cells);
    ReadPainted(Prepared(version, ecl), cells, CodewordBits(codewords));
  }

  /** A finished grid reads as the data bits it was made from. */
  lemma SymbolReadsBack(version: nat, ecl: Ecc, data: seq<bv8>, codewords: seq<bv8>, mask: nat)
    requires IsVersion(version) && mask < 8
    requires var l := BlockLayout(version, ecl);
      l.Valid() && |data| == l.Capacity() && IsInterleaving(l, data, codewords)
    ensures var g := Trial(CodedGrid(version, ecl, codewords), FunctionGrid(version, ecl), ecl, mask);
      SymbolData(g, version) == CodewordBits(data)
      && DecodeFormat(ReadFormat(g)) == DecodeFormat(ReadSecondFormat(g)) == (ecl, mask)
  {
    hide FunctionGrid, DataCells, Masked, DrawMarks, FormatMarks, FormatBits, CodewordBits, BlockLayout, CodedGrid,
      DecodeFormat, ReadData, ReadSegments, PackCodewords, ReadFormat, ReadSecondFormat, WordBits;
    var l, f := BlockLayout(version, ecl), FunctionGrid(version, ecl);
    var coded := CodedGrid(version, ecl, codewords);
    FormatIsReadBack(Masked(coded, f, mask), Size(version), FormatBits(ecl, mask as bv32));
    FormatRoundTrip(ecl, mask);
    RawIsEnough(version, ecl);
    RawOfLayout(version, ecl);
    CodewordsReadBack(version, ecl, codewords, mask);
    UnpackRoundTrip(codewords);
    ReadDataIsData(l, data, codewords, l.numBlocks);
    assert data[..l.Offset(l.numBlocks)] == data;
  }

  /** In every version and level, codewords received with no block damaged beyond half its error correction come
      from one data sequence only. */
  lemma SymbolIsCorrectable(version: nat, ecl: Ecc, data: seq<bv8>, sent: seq<bv8>, other: seq<bv8>,
      otherSent: seq<bv8>, received: seq<bv8>)
    requires IsVersion(version)
    requires var l := BlockLayout(version, ecl);
      l.Valid() && |data| == |other| == l.Capacity() && |received| == l.rawCodewords
      && IsInterleaving(l, data, sent) && WithinCorrection(l, sent, received)
      && IsInterleaving(l, other, otherSent) && WithinCorrection(l, otherSent, received)
    ensures data == other && sent == otherSent
  {
    hide BlockLayout, IsInterleaving, WithinCorrection, Layout.Valid, Layout.Capacity;
    LayoutIsValid(version, ecl);
    DamageIsCorrectable(BlockLayout(version, ecl), data, sent, other, otherSent, received);
  }

  // ---------- Choosing version and level ----------

  /** The number of bits of all segments, or -1 if a count does not fit its field or the sum is not an int. */
  function TotalBits(segs: seq<Segment>, version: nat): int
    requires version <= 40
  {
    if CountsFit(segs, version) && |AllBits(segs, version)| <= INT_MAX then |AllBits(segs, version)| else -1
  }

  lemma {:induction false} AllBitsAppend(segs: seq<Segment>, seg: Segment, version: nat)
    requires version <= 40
    ensures AllBits(segs + [seg], version) == AllBits(segs, version) + SegmentBits(seg, version)
    decreases |segs|
  {
    hide SegmentBits;
    if segs == [] {
      assert [seg][1..] == [] && segs + [seg] == [seg];
    } else {
      assert (segs + [seg])[1..] == segs[1..] + [seg];
      AllBitsAppend(segs[1..], seg, version);
    }
  }

  lemma {:induction false} AllBitsPrefix(segs: seq<Segment>, i: nat, version: nat)
    requires version <= 40 && i <= |segs|
    ensures |AllBits(segs[..i], version)| <= |AllBits(segs, version)|
    decreases |segs| - i
  {
    if i < |segs| {
      hide SegmentBits;
      assert segs[..i + 1] == segs[..i] + [segs[i]];
      AllBitsAppend(segs[..i], segs[i], version);
      AllBitsPrefix(segs, i + 1, version);
    } else {
      assert segs[..i] == segs;
    }
  }

  method GetTotalBits(segs: seq<Segment>, version: nat) returns (result: int)
    requires version <= 40
    ensures result == TotalBits(segs, version)
  {
    hide AllBits, Pow2;
    result := 0;
    assert AllBits(segs[..0], version) == [] by { NoSegments(version); }
    for i := 0 to |segs|
      invariant result == |AllBits(segs[..i], version)| <= INT_MAX
      invariant forall j :: 0 <= j < i ==> segs[j].numChars < Pow2(segs[j].mode.CharCountBits(version))
    {
      var seg := segs[i];
      assert segs[..i + 1] == segs[..i] + [seg];
      AllBitsAppend(segs[..i], seg, version);
      AllBitsPrefix(segs, i + 1, version);
      var ccbits := seg.mode.CharCountBits(version);
      if seg.numChars >= Pow2(ccbits) {
        return -1;
      }
      if 4 + ccbits > INT_MAX - result {
        return -1;
      }
      result := result + 4 + ccbits;
      if |seg.data| > INT_MAX - result {
        return -1;
      }
      result := result + |seg.data|;
    }
    assert segs[..|segs|] == segs;
  }

  lemma NoSegments(version: nat)
    requires version <= 40
    ensures AllBits([], version) == []
  {}

  /** The segments fit a symbol of this version and level. */
  predicate FitsIn(segs: seq<Segment>, version: nat, ecl: Ecc)
    requires version <= 40
  {
    0 <= TotalBits(segs, version) <= NumDataCodewords(version, ecl) * 8
  }

  /** The smallest version in the range that fits, if any. */
  method FindVersion(segs: seq<Segment>, ecl: Ecc, minVersion: int, maxVersion: int) returns (r: Option<nat>)
    requires 1 <= minVersion <= maxVersion <= 40
    ensures r.Some? ==> minVersion <= r.value <= maxVersion && FitsIn(segs, r.value, ecl)
    ensures r.Some? ==> forall v :: minVersion <= v < r.value ==> !FitsIn(segs, v, ecl)
    ensures r.None? ==> forall v :: minVersion <= v <= maxVersion ==> !FitsIn(segs, v, ecl)
  {
    hide TotalBits, NumDataCodewords;
    var version := minVersion;
    while true
      invariant minVersion <= version <= maxVersion
      invariant forall v :: minVersion <= v < version ==> !FitsIn(segs, v, ecl)
      decreases maxVersion - version
    {
      var dataCapacityBits := NumDataCodewords(version, ecl) * 8;
      var dataUsedBits := GetTotalBits(segs, version);
      if dataUsedBits != -1 && dataUsedBits <= dataCapacityBits {
        TotalBitsSign(segs, version);
        return Some(version);
      }
      if version >= maxVersion {
        return None;
      }
      version := version + 1;
    }
  }

  lemma TotalBitsSign(segs: seq<Segment>, version: nat)
    requires version <= 40
    ensures TotalBits(segs, version) >= -1
  {}

  /** Raises the level as far as the data still fits. */
  method BoostLevel(segs: seq<Segment>, version: nat, requested: Ecc, dataUsedBits: int, boostEcl: bool)
      returns (ecl: Ecc)
    requires IsVersion(version) && dataUsedBits == TotalBits(segs, version) && FitsIn(segs, version, requested)
    ensures FitsIn(segs, version, ecl)
    ensures boostEcl ==> Level(ecl) >= Level(requested) && forall e: Ecc :: FitsIn(segs, version, e) ==>
      Level(e) <= Level(ecl)
    ensures !boostEcl ==> ecl == requested
  {
    hide TotalBits, NumDataCodewords;
    ecl := requested;
    if boostEcl && dataUsedBits <= NumDataCodewords(version, Medium) * 8 {
      ecl := Medium;
    }
    if boostEcl && dataUsedBits <= NumDataCodewords(version, Quartile) * 8 {
      ecl := Quartile;
    }
    if boostEcl && dataUsedBits <= NumDataCodewords(version, High) * 8 {
      ecl := High;
    }
  }

  /** From weakest to strongest. */
  function Level(ecl: Ecc): nat {
    match ecl
    case Low => 0
    case Medium => 1
    case Quartile => 2
    case High => 3
  }

  // ---------- The data bits ----------

  /** n pad bytes, alternately 0xEC and 0x11. */
  function PadBytes(n: nat, first: bool): (bits: seq<bool>)
    ensures |bits| == 8 * n
  {
    if n == 0 then [] else HighBits(if first then 0xEC else 0x11, 8) + PadBytes(n - 1, !first)
  }

  /** The bits that lead to a byte boundary. */
  function ToBoundary(used: nat): (n: nat)
    ensures n < 8 && (used + n) % 8 == 0
  {
    (8 - used % 8) % 8
  }

  lemma BoundaryBefore(used: nat, capacity: nat)
    requires used <= capacity && capacity % 8 == 0
    ensures used + ToBoundary(used) <= capacity
    ensures (capacity - used - ToBoundary(used)) / 8 * 8 == capacity - used - ToBoundary(used)
  {}

  /** Terminator of up to four zeros, zeros to a byte boundary, pad bytes to capacity. */
  function Padding(used: nat, capacity: nat): (bits: seq<bool>)
    requires used <= capacity && capacity % 8 == 0
    ensures |bits| == capacity - used
  {
    var terminator := Min(4, capacity - used);
    var align := ToBoundary(used + terminator);
    BoundaryBefore(used + terminator, capacity);
    HighBits(0, terminator) + HighBits(0, align) + PadBytes((capacity - used - terminator - align) / 8, true)
  }

  method ConcatenateSegments(segs: seq<Segment>, version: nat, bb: BitBuffer)
    requires version <= 40 && CountsFit(segs, version) && bb.bits == []
    modifies bb
    ensures bb.bits == AllBits(segs, version)
  {
    hide AllBits, Pow2, HighBits;
    NoSegments(version);
    SmallPow2();
    assert segs[..0] == [];
    for i := 0 to |segs|
      invariant bb.bits == AllBits(segs[..i], version)
    {
      var seg := segs[i];
      assert segs[..i + 1] == segs[..i] + [seg];
      AllBitsAppend(segs[..i], seg, version);
      var ok := bb.AppendBits(seg.mode.ModeBits(), 4);
      ok := bb.AppendBits(seg.numChars, seg.mode.CharCountBits(version));
      bb.Insert(seg.data);
    }
    assert segs[..|segs|] == segs;
  }

  method PadToCapacity(bb: BitBuffer, capacity: nat)
    requires |bb.bits| <= capacity && capacity % 8 == 0
    modifies bb
    ensures bb.bits == old(bb.bits) + Padding(|old(bb.bits)|, capacity)
  {
    hide HighBits, Pow2, PadBytes;
    Pow2Small();
    ghost var used := |bb.bits|;
    var ok := bb.AppendBits(0, Min(4, capacity - |bb.bits|));
    assert |bb.bits| == used + Min(4, capacity - used);
    BoundaryBefore(|bb.bits|, capacity);
    ok := bb.AppendBits(0, (8 - |bb.bits| % 8) % 8);
    PadWithBytes(bb, capacity);
  }

  method PadWithBytes(bb: BitBuffer, capacity: nat)
    requires |bb.bits| <= capacity && capacity % 8 == 0 && |bb.bits| % 8 == 0
    modifies bb
    ensures bb.bits == old(bb.bits) + PadBytes((capacity - |old(bb.bits)|) / 8, true)
  {
    hide HighBits, Pow2;
    SmallPow2();
    var padByte := 0xEC;
    ghost var n := (capacity - |bb.bits|) / 8;
    while |bb.bits| < capacity
      invariant |bb.bits| <= capacity && |bb.bits| % 8 == 0
      invariant padByte == 0xEC || padByte == 0x11
      invariant old(bb.bits) + PadBytes(n, true) == bb.bits + PadBytes((capacity - |bb.bits|) / 8, padByte == 0xEC)
      decreases capacity - |bb.bits|
    {
      ghost var left := (capacity - |bb.bits|) / 8;
      var ok := bb.AppendBits(padByte, 8);
      padByte := if padByte == 0xEC then 0x11 else 0xEC;
      assert (capacity - |bb.bits|) / 8 == left - 1;
    }
    assert bb.bits + [] == bb.bits;
  }

  lemma Pow2Small()
    ensures forall n: nat :: Pow2(n) > 0
  {}

  /** The padding ends the segments for a reader. */
  lemma PaddingTerminates(data: seq<bool>, capacity: nat)
    requires |data| <= capacity && capacity % 8 == 0
    ensures Terminated(data + Padding(|data|, capacity), |data|)
  {
    hide HighBits, HighValue, PadBytes, Pow2;
    SmallPow2();
    var bits := data + Padding(|data|, capacity);
    if capacity - |data| >= 4 {
      var t := HighBits(0, 4);
      assert bits[|data|..|data| + 4] == t;
      ReadHighAt(bits, |data|, 0, 4);
    }
  }

  // ---------- The whole encoder ----------

  datatype Outcome = Encoded(qr: QrCode) | InvalidArgument | DataTooLong

  predicate ArgumentsValid(minVersion: int, maxVersion: int, mask: int) {
    1 <= minVersion <= maxVersion <= 40 && -1 <= mask <= 7
  }

  /** The fields of all segments, padded to the capacity of the version and level. */
  function PaddedBits(segs: seq<Segment>, version: nat, ecl: Ecc): seq<bool>
    requires version <= 40 && FitsIn(segs, version, ecl)
  {
    FittingSegments(segs, version, ecl);
    AllBits(segs, version) + Padding(|AllBits(segs, version)|, NumDataCodewords(version, ecl) * 8)
  }

  /** The data codewords: the fields of the segments, padded to capacity. */
  method MakeDataCodewords(segs: seq<Segment>, version: nat, ecl: Ecc) returns (dataCodewords: seq<bv8>)
    requires version <= 40 && FitsIn(segs, version, ecl)
    ensures |AllBits(segs, version)| <= NumDataCodewords(version, ecl) * 8 == 8 * |dataCodewords|
    ensures CountsFit(segs, version)
    ensures CodewordBits(dataCodewords) == PaddedBits(segs, version, ecl)
  {
    hide NumDataCodewords, Padding, AllBits, CodewordBits;
    var bb := new BitBuffer();
    FittingSegments(segs, version, ecl);
    hide FitsIn, CountsFit;
    ConcatenateSegments(segs, version, bb);
    PadToCapacity(bb, NumDataCodewords(version, ecl) * 8);
    dataCodewords := PackBits(bb.bits);
  }

  /** Bits, padding and symbol at a known version and level. */
  method EncodeAt(segs: seq<Segment>, version: nat, ecl: Ecc, mask: int, ghost texts: seq<string>) returns (qr: QrCode)
    requires IsVersion(version) && -1 <= mask <= 7 && FitsIn(segs, version, ecl)
    ensures qr.version == version && qr.ecl == ecl && Square(qr.modules, Size(version)) && 0 <= qr.mask < 8
    ensures mask != -1 ==> qr.mask == mask
    ensures mask == -1 ==> CarriesBestMask(qr)
    ensures SymbolData(qr.modules, version) == PaddedBits(segs, version, ecl)
    ensures AllRepresent(segs, texts) ==> ReadSymbol(qr.modules, version) == Some(Join(texts))
  {
    hide NumDataCodewords, SymbolData, Padding, AllBits, AllRepresent, CodewordBits, Trial, IsBestMask, BlockLayout,
      IsInterleaving, FitsIn, CountsFit, FunctionGrid, CodedGrid, ReadSegments;
    var dataCodewords := MakeDataCodewords(segs, version, ecl);
    var symbol, codewords := Make(version, ecl, dataCodewords, mask);
    qr := symbol.value;
    SymbolReadsBack(version, ecl, dataCodewords, codewords, qr.mask);
    if AllRepresent(segs, texts) {
      PaddedReadsBack(version, segs, texts, NumDataCodewords(version, ecl) * 8);
    }
    assert mask == -1 ==> ShowsBest(qr.modules, version, ecl, qr.mask, codewords);
  }

  method EncodeSegments(segs: seq<Segment>, ecl: Ecc, minVersion: int, maxVersion: int, mask: int, boostEcl: bool,
      ghost texts: seq<string>)
    returns (r: Outcome)
    ensures r.InvalidArgument? <==> !ArgumentsValid(minVersion, maxVersion, mask)
    ensures ArgumentsValid(minVersion, maxVersion, mask) ==>
      (r.DataTooLong? <==> forall v :: minVersion <= v <= maxVersion ==> !FitsIn(segs, v, ecl))
    ensures r.Encoded? ==>
      var qr := r.qr;
      && minVersion <= qr.version <= maxVersion && Square(qr.modules, Size(qr.version)) && 0 <= qr.mask < 8
      && FitsIn(segs, qr.version, ecl) && (forall v :: minVersion <= v < qr.version ==> !FitsIn(segs, v, ecl))
      && FitsIn(segs, qr.version, qr.ecl)
      && (boostEcl ==> Level(qr.ecl) >= Level(ecl) && forall e: Ecc :: FitsIn(segs, qr.version, e) ==>
        Level(e) <= Level(qr.ecl))
      && (!boostEcl ==> qr.ecl == ecl)
      && (mask != -1 ==> qr.mask == mask) && (mask == -1 ==> CarriesBestMask(qr))
      && SymbolData(qr.modules, qr.version) == PaddedBits(segs, qr.version, qr.ecl)
      && (AllRepresent(segs, texts) ==> ReadSymbol(qr.modules, qr.version) == Some(Join(texts)))
  {
    hide TotalBits, NumDataCodewords, ReadSymbol, SymbolData, PaddedBits, AllRepresent, CarriesBestMask;
    if !ArgumentsValid(minVersion, maxVersion, mask) {
      return InvalidArgument;
    }
    var found := FindVersion(segs, ecl, minVersion, maxVersion);
    if found.None? {
      return DataTooLong;
    }
    var version := found.value;
    var dataUsedBits := GetTotalBits(segs, version);
    var level := BoostLevel(segs, version, ecl, dataUsedBits, boostEcl);
    var qr := EncodeAt(segs, version, level, mask, texts);
    r := Encoded(qr);
  }

  lemma FittingSegments(segs: seq<Segment>, version: nat, ecl: Ecc)
    requires version <= 40 && FitsIn(segs, version, ecl)
    ensures CountsFit(segs, version) && |AllBits(segs, version)| <= NumDataCodewords(version, ecl) * 8
    ensures NumDataCodewords(version, ecl) * 8 % 8 == 0
  {
    hide NumDataCodewords, AllBits;
  }

  lemma PaddedReadsBack(version: nat, segs: seq<Segment>, texts: seq<string>, capacity: nat)
    requires version <= 40 && AllRepresent(segs, texts) && CountsFit(segs, version)
    requires |AllBits(segs, version)| <= capacity && capacity % 8 == 0
    ensures ReadSegments(AllBits(segs, version) + Padding(|AllBits(segs, version)|, capacity), 0, version)
      == Some(Join(texts))
  {
    hide AllBits, Padding, CountsFit, AllRepresent, ReadSegments;
    var data := AllBits(segs, version);
    var bits := data + Padding(|data|, capacity);
    assert bits[0..0 + |data|] == data;
    PaddingTerminates(data, capacity);
    SegmentsReadBack(bits, 0, version, segs, texts);
  }

  /** Encodes a text in the smallest symbol that holds it, at the highest level that costs no version;
      reading the finished symbol gives the text back. */
  method EncodeText(text: string, ecl: Ecc) returns (r: Outcome, ghost segs: seq<Segment>)
    requires IsCString(text)
    ensures IsSegmentation(segs, text)
    ensures !r.InvalidArgument?
    ensures r.DataTooLong? <==> forall v :: 1 <= v <= 40 ==> !FitsIn(segs, v, ecl)
    ensures r.Encoded? ==>
      var qr := r.qr;
      && IsVersion(qr.version) && Square(qr.modules, Size(qr.version))
      && (forall v :: 1 <= v < qr.version ==> !FitsIn(segs, v, ecl))
      && Level(qr.ecl) >= Level(ecl) && (forall e: Ecc :: FitsIn(segs, qr.version, e) ==> Level(e) <= Level(qr.ecl))
      && CarriesBestMask(qr) && ReadSymbol(qr.modules, qr.version) == Some(text)
  {
    hide ReadSymbol, SymbolData, PaddedBits, FitsIn, CarriesBestMask, ByteBits;
    var made := MakeSegments(text);
    if made == None {
      segs := [Segment(Bytes, |text|, ByteBits(text))];
      LongSegmentNeverFits(segs, ecl);
      return DataTooLong, segs;
    }
    segs := made.value;
    ghost var texts := if text == "" then [] else [text];
    assert Join(texts) == text by { JoinOne(text); }
    r := EncodeSegments(made.value, ecl, 1, 40, -1, true, texts);
  }

  /** Encodes bytes as they are, zero included. */
  method EncodeBinary(data: string, ecl: Ecc) returns (r: Outcome)
    requires IsByteString(data)
    ensures !r.InvalidArgument?
    ensures r.DataTooLong? <==>
      forall v :: 1 <= v <= 40 ==> !FitsIn([Segment(Bytes, |data|, ByteBits(data))], v, ecl)
    ensures r.Encoded? ==>
      var qr := r.qr;
      && IsVersion(qr.version) && Square(qr.modules, Size(qr.version)) && Level(qr.ecl) >= Level(ecl)
      && (forall v :: 1 <= v < qr.version ==> !FitsIn([Segment(Bytes, |data|, ByteBits(data))], v, ecl))
      && CarriesBestMask(qr) && ReadSymbol(qr.modules, qr.version) == Some(data)
  {
    hide ReadSymbol, SymbolData, PaddedBits, FitsIn, CarriesBestMask, ByteBits;
    ghost var segs := [Segment(Bytes, |data|, ByteBits(data))];
    var made := MakeBytes(data);
    if made == None {
      LongSegmentNeverFits(segs, ecl);
      return DataTooLong;
    }
    JoinOne(data);
    r := EncodeSegments([made.value], ecl, 1, 40, -1, true, [data]);
  }

  /** No version counts more than INT_MAX characters. */
  lemma LongSegmentNeverFits(segs: seq<Segment>, ecl: Ecc)
    requires segs != [] && segs[0].numChars > INT_MAX
    ensures forall v :: 0 <= v <= 40 ==> !FitsIn(segs, v, ecl)
  {
    hide AllBits, NumDataCodewords, Pow2;
    forall v | 0 <= v <= 40
      ensures !FitsIn(segs, v, ecl)
    {
      CountFieldBound(segs[0].mode.CharCountBits(v));
    }
  }

  lemma {:induction false} CountFieldBound(n: nat)
    requires n <= 16
    ensures Pow2(n) <= 65536
    decreases 16 - n
  {
    if n < 16 {
      CountFieldBound(n + 1);
    } else {
      assert Pow2(8) == 256 && Pow2(16) == 256 * Pow2(8);
    }
  }

  lemma JoinOne(text: string)
    ensures Join([text]) == text && Join([]) == ""
  {
    assert [text][1..] == [];
    assert text + "" == text;
  }
}
