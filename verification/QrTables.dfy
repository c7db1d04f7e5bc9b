/** Error correction parameters per version and level, and the block layouts they define. */
module QrTables {
  import opened Arithmetic
  import opened QrPatterns
  import opened QrCapacity
  import opened QrBlocks

  // Error correction codewords per block; index 0 is not a version.
  const ECC_LOW: seq<int> := [-1, 7, 10, 15, 20, 26, 18, 20, 24, 30, 18, 20, 24, 26, 30, 22, 24, 28, 30, 28, 28, 28,
    28, 30, 30, 26, 28, 30, 30, 30, 30, 30, 30, 30, 30, 30, 30, 30, 30, 30, 30]
  const ECC_MEDIUM: seq<int> := [-1, 10, 16, 26, 18, 24, 16, 18, 22, 22, 26, 30, 22, 22, 24, 24, 28, 28, 26, 26, 26,
    26, 28, 28, 28, 28, 28, 28, 28, 28, 28, 28, 28, 28, 28, 28, 28, 28, 28, 28, 28]
  const ECC_QUARTILE: seq<int> := [-1, 13, 22, 18, 26, 18, 24, 18, 22, 20, 24, 28, 26, 24, 20, 30, 24, 28, 28, 26, 30,
    28, 30, 30, 30, 30, 28, 30, 30, 30, 30, 30, 30, 30, 30, 30, 30, 30, 30, 30, 30]
  const ECC_HIGH: seq<int> := [-1, 17, 28, 22, 16, 22, 28, 26, 26, 24, 28, 24, 28, 22, 24, 24, 30, 28, 28, 26, 28, 30,
    24, 30, 30, 30, 30, 30, 30, 30, 30, 30, 30, 30, 30, 30, 30, 30, 30, 30, 30]

  // Number of blocks.
  const BLOCKS_LOW: seq<int> := [-1, 1, 1, 1, 1, 1, 2, 2, 2, 2, 4, 4, 4, 4, 4, 6, 6, 6, 6, 7, 8, 8, 9, 9, 10, 12, 12,
    12, 13, 14, 15, 16, 17, 18, 19, 19, 20, 21, 22, 24, 25]
  const BLOCKS_MEDIUM: seq<int> := [-1, 1, 1, 1, 2, 2, 4, 4, 4, 5, 5, 5, 8, 9, 9, 10, 10, 11, 13, 14, 16, 17, 17, 18,
    20, 21, 23, 25, 26, 28, 29, 31, 33, 35, 37, 38, 40, 43, 45, 47, 49]
  const BLOCKS_QUARTILE: seq<int> := [-1, 1, 1, 2, 2, 4, 4, 6, 6, 8, 8, 8, 10, 12, 16, 12, 17, 16, 18, 21, 20, 23, 23,
    25, 27, 29, 34, 34, 35, 38, 40, 43, 45, 48, 51, 53, 56, 59, 62, 65, 68]
  const BLOCKS_HIGH: seq<int> := [-1, 1, 1, 2, 4, 4, 4, 5, 6, 8, 8, 11, 11, 16, 16, 18, 16, 19, 21, 25, 25, 25, 34,
    30, 32, 35, 37, 40, 42, 45, 48, 51, 54, 57, 60, 63, 66, 70, 74, 77, 81]

  function EccPerBlock(version: nat, ecl: Ecc): int
    requires version <= 40
  {
    match ecl
    case Low => ECC_LOW[version]
    case Medium => ECC_MEDIUM[version]
    case Quartile => ECC_QUARTILE[version]
    case High => ECC_HIGH[version]
  }

  function NumBlocks(version: nat, ecl: Ecc): int
    requires version <= 40
  {
    match ecl
    case Low => BLOCKS_LOW[version]
    case Medium => BLOCKS_MEDIUM[version]
    case Quartile => BLOCKS_QUARTILE[version]
    case High => BLOCKS_HIGH[version]
  }

  /** Blocks have at least one data byte, 1 to 30 error correction bytes, and at most 153 bytes. */
  predicate Fits(blocks: int, ecc: int, raw: int) {
    blocks >= 1 && 1 <= ecc <= 30 && (ecc + 1) * blocks <= raw <= 153 * blocks
  }

  lemma TableLow0(v: nat)
    requires 1 <= v <= 10
    ensures Fits(BLOCKS_LOW[v], ECC_LOW[v], NumRawDataModules(v) / 8)
  {
    assert v == 1 || v == 2 || v == 3 || v == 4 || v == 5 || v == 6 || v == 7 || v == 8 || v == 9 || v == 10;
  }

  lemma TableLow1(v: nat)
    requires 11 <= v <= 20
    ensures Fits(BLOCKS_LOW[v], ECC_LOW[v], NumRawDataModules(v) / 8)
  {
    assert v == 11 || v == 12 || v == 13 || v == 14 || v == 15 || v == 16 || v == 17 || v == 18 || v == 19 || v == 20;
  }

  lemma TableLow2(v: nat)
    requires 21 <= v <= 30
    ensures Fits(BLOCKS_LOW[v], ECC_LOW[v], NumRawDataModules(v) / 8)
  {
    assert v == 21 || v == 22 || v == 23 || v == 24 || v == 25 || v == 26 || v == 27 || v == 28 || v == 29 || v == 30;
  }

  lemma TableLow3(v: nat)
    requires 31 <= v <= 40
    ensures Fits(BLOCKS_LOW[v], ECC_LOW[v], NumRawDataModules(v) / 8)
  {
    assert v == 31 || v == 32 || v == 33 || v == 34 || v == 35 || v == 36 || v == 37 || v == 38 || v == 39 || v == 40;
  }

  lemma TableMedium0(v: nat)
    requires 1 <= v <= 10
    ensures Fits(BLOCKS_MEDIUM[v], ECC_MEDIUM[v], NumRawDataModules(v) / 8)
  {
    assert v == 1 || v == 2 || v == 3 || v == 4 || v == 5 || v == 6 || v == 7 || v == 8 || v == 9 || v == 10;
  }

  lemma TableMedium1(v: nat)
    requires 11 <= v <= 20
    ensures Fits(BLOCKS_MEDIUM[v], ECC_MEDIUM[v], NumRawDataModules(v) / 8)
  {
    assert v == 11 || v == 12 || v == 13 || v == 14 || v == 15 || v == 16 || v == 17 || v == 18 || v == 19 || v == 20;
  }

  lemma TableMedium2(v: nat)
    requires 21 <= v <= 30
    ensures Fits(BLOCKS_MEDIUM[v], ECC_MEDIUM[v], NumRawDataModules(v) / 8)
  {
    assert v == 21 || v == 22 || v == 23 || v == 24 || v == 25 || v == 26 || v == 27 || v == 28 || v == 29 || v == 30;
  }

  lemma TableMedium3(v: nat)
    requires 31 <= v <= 40
    ensures Fits(BLOCKS_MEDIUM[v], ECC_MEDIUM[v], NumRawDataModules(v) / 8)
  {
    assert v == 31 || v == 32 || v == 33 || v == 34 || v == 35 || v == 36 || v == 37 || v == 38 || v == 39 || v == 40;
  }

  lemma TableQuartile0(v: nat)
    requires 1 <= v <= 10
    ensures Fits(BLOCKS_QUARTILE[v], ECC_QUARTILE[v], NumRawDataModules(v) / 8)
  {
    assert v == 1 || v == 2 || v == 3 || v == 4 || v == 5 || v == 6 || v == 7 || v == 8 || v == 9 || v == 10;
  }

  lemma TableQuartile1(v: nat)
    requires 11 <= v <= 20
    ensures Fits(BLOCKS_QUARTILE[v], ECC_QUARTILE[v], NumRawDataModules(v) / 8)
  {
    assert v == 11 || v == 12 || v == 13 || v == 14 || v == 15 || v == 16 || v == 17 || v == 18 || v == 19 || v == 20;
  }

  lemma TableQuartile2(v: nat)
    requires 21 <= v <= 30
    ensures Fits(BLOCKS_QUARTILE[v], ECC_QUARTILE[v], NumRawDataModules(v) / 8)
  {
    assert v == 21 || v == 22 || v == 23 || v == 24 || v == 25 || v == 26 || v == 27 || v == 28 || v == 29 || v == 30;
  }

  lemma TableQuartile3(v: nat)
    requires 31 <= v <= 40
    ensures Fits(BLOCKS_QUARTILE[v], ECC_QUARTILE[v], NumRawDataModules(v) / 8)
  {
    assert v == 31 || v == 32 || v == 33 || v == 34 || v == 35 || v == 36 || v == 37 || v == 38 || v == 39 || v == 40;
  }

  lemma TableHigh0(v: nat)
    requires 1 <= v <= 10
    ensures Fits(BLOCKS_HIGH[v], ECC_HIGH[v], NumRawDataModules(v) / 8)
  {
    assert v == 1 || v == 2 || v == 3 || v == 4 || v == 5 || v == 6 || v == 7 || v == 8 || v == 9 || v == 10;
  }

  lemma TableHigh1(v: nat)
    requires 11 <= v <= 20
    ensures Fits(BLOCKS_HIGH[v], ECC_HIGH[v], NumRawDataModules(v) / 8)
  {
    assert v == 11 || v == 12 || v == 13 || v == 14 || v == 15 || v == 16 || v == 17 || v == 18 || v == 19 || v == 20;
  }

  lemma TableHigh2(v: nat)
    requires 21 <= v <= 30
    ensures Fits(BLOCKS_HIGH[v], ECC_HIGH[v], NumRawDataModules(v) / 8)
  {
    assert v == 21 || v == 22 || v == 23 || v == 24 || v == 25 || v == 26 || v == 27 || v == 28 || v == 29 || v == 30;
  }

  lemma TableHigh3(v: nat)
    requires 31 <= v <= 40
    ensures Fits(BLOCKS_HIGH[v], ECC_HIGH[v], NumRawDataModules(v) / 8)
  {
    assert v == 31 || v == 32 || v == 33 || v == 34 || v == 35 || v == 36 || v == 37 || v == 38 || v == 39 || v == 40;
  }

  lemma TableFits(version: nat, ecl: Ecc)
    requires IsVersion(version)
    ensures Fits(NumBlocks(version, ecl), EccPerBlock(version, ecl), NumRawDataModules(version) / 8)
  {
    hide Fits, NumRawDataModules;
    match ecl
    case Low =>
      if version <= 10 {
        TableLow0(version);
      } else if version <= 20 {
        TableLow1(version);
      } else if version <= 30 {
        TableLow2(version);
      } else {
        TableLow3(version);
      }
    case Medium =>
      if version <= 10 {
        TableMedium0(version);
      } else if version <= 20 {
        TableMedium1(version);
      } else if version <= 30 {
        TableMedium2(version);
      } else {
        TableMedium3(version);
      }
    case Quartile =>
      if version <= 10 {
        TableQuartile0(version);
      } else if version <= 20 {
        TableQuartile1(version);
      } else if version <= 30 {
        TableQuartile2(version);
      } else {
        TableQuartile3(version);
      }
    case High =>
      if version <= 10 {
        TableHigh0(version);
      } else if version <= 20 {
        TableHigh1(version);
      } else if version <= 30 {
        TableHigh2(version);
      } else {
        TableHigh3(version);
      }
  }

  /** The number of data codewords a version holds at a level. */
  function NumDataCodewords(version: nat, ecl: Ecc): int
    requires version <= 40
  {
    NumRawDataModules(version) / 8 - EccPerBlock(version, ecl) * NumBlocks(version, ecl)
  }

  function MakeLayout(blocks: int, ecc: int, raw: int): Layout
    requires Fits(blocks, ecc, raw)
  {
    Layout(blocks, ecc, raw)
  }

  function BlockLayout(version: nat, ecl: Ecc): (l: Layout)
    requires IsVersion(version)
  {
    TableFits(version, ecl);
    MakeLayout(NumBlocks(version, ecl), EccPerBlock(version, ecl), NumRawDataModules(version) / 8)
  }

  /** Every layout of the tables is usable, its data capacity is the tabulated one, and each block is
      short enough for the distance of the code to hold. */
  lemma LayoutIsValid(version: nat, ecl: Ecc)
    requires IsVersion(version)
    ensures var l := BlockLayout(version, ecl);
      l.Valid() && l.Capacity() == NumDataCodewords(version, ecl) && l.ShortData() + 1 + l.eccLen <= 255
  {
    hide NumBlocks, EccPerBlock, NumRawDataModules;
    TableFits(version, ecl);
    var l := BlockLayout(version, ecl);
    var q, r := DivModParts(l.rawCodewords, l.numBlocks);
    if q <= l.eccLen { MulMonotone(q, l.eccLen, l.numBlocks); MulNext(l.eccLen, l.numBlocks); }
    if q >= 154 { MulMonotone(154, q, l.numBlocks); }
    LayoutTotal(l);
    assert l.numBlocks * l.eccLen == l.eccLen * l.numBlocks;
  }
}
