/** The tables and fixed values of ISO/IEC 18004, next to what the encoder computes them from. */
module QrStandard {
  import opened QrPatterns
  import opened QrCapacity
  import opened QrTables

  // ---------- Data codewords of every version and level (table 7) ----------

  const DATA_LOW: seq<int> := [
    19, 34, 55, 80, 108, 136, 156, 194, 232, 274, 324, 370, 428, 461, 523, 589, 647, 721, 795, 861, 932, 1006,
    1094, 1174, 1276, 1370, 1468, 1531, 1631, 1735, 1843, 1955, 2071, 2191, 2306, 2434, 2566, 2702, 2812, 2956]

  const DATA_MEDIUM: seq<int> := [
    16, 28, 44, 64, 86, 108, 124, 154, 182, 216, 254, 290, 334, 365, 415, 453, 507, 563, 627, 669, 714, 782,
    860, 914, 1000, 1062, 1128, 1193, 1267, 1373, 1455, 1541, 1631, 1725, 1812, 1914, 1992, 2102, 2216, 2334]

  const DATA_QUARTILE: seq<int> := [
    13, 22, 34, 48, 62, 76, 88, 110, 132, 154, 180, 206, 244, 261, 295, 325, 367, 397, 445, 485, 512, 568, 614,
    664, 718, 754, 808, 871, 911, 985, 1033, 1115, 1171, 1231, 1286, 1354, 1426, 1502, 1582, 1666]

  const DATA_HIGH: seq<int> := [
    9, 16, 26, 36, 46, 60, 66, 86, 100, 122, 140, 158, 180, 197, 223, 253, 283, 313, 341, 385, 406, 442, 464,
    514, 538, 596, 628, 661, 701, 745, 793, 845, 901, 961, 986, 1054, 1096, 1142, 1222, 1276]

  function DataCodewords(version: nat, ecl: Ecc): int
    requires 1 <= version <= 40
  {
    match ecl
    case Low => DATA_LOW[version - 1]
    case Medium => DATA_MEDIUM[version - 1]
    case Quartile => DATA_QUARTILE[version - 1]
    case High => DATA_HIGH[version - 1]
  }

  /** All codewords of a symbol (table 1). */
  const CODEWORDS: seq<int> := [
    26, 44, 70, 100, 134, 172, 196, 242, 292, 346, 404, 466, 532, 581, 655, 733, 815, 901, 991, 1085, 1156,
    1258, 1364, 1474, 1588, 1706, 1828, 1921, 2051, 2185, 2323, 2465, 2611, 2761, 2876, 3034, 3196, 3362, 3532,
    3706]

  lemma Codewords1(v: nat)
    requires 1 <= v <= 10
    ensures NumRawDataModules(v) / 8 == CODEWORDS[v - 1]
  {
    assert v == 1 || v == 2 || v == 3 || v == 4 || v == 5
        || v == 6 || v == 7 || v == 8 || v == 9 || v == 10;
  }

  lemma Codewords11(v: nat)
    requires 11 <= v <= 20
    ensures NumRawDataModules(v) / 8 == CODEWORDS[v - 1]
  {
    assert v == 11 || v == 12 || v == 13 || v == 14 || v == 15
        || v == 16 || v == 17 || v == 18 || v == 19 || v == 20;
  }

  lemma Codewords21(v: nat)
    requires 21 <= v <= 30
    ensures NumRawDataModules(v) / 8 == CODEWORDS[v - 1]
  {
    assert v == 21 || v == 22 || v == 23 || v == 24 || v == 25
        || v == 26 || v == 27 || v == 28 || v == 29 || v == 30;
  }

  lemma Codewords31(v: nat)
    requires 31 <= v <= 40
    ensures NumRawDataModules(v) / 8 == CODEWORDS[v - 1]
  {
    assert v == 31 || v == 32 || v == 33 || v == 34 || v == 35
        || v == 36 || v == 37 || v == 38 || v == 39 || v == 40;
  }

  lemma CodewordsAreStandard(v: nat)
    requires 1 <= v <= 40
    ensures NumRawDataModules(v) / 8 == CODEWORDS[v - 1]
  {
    hide NumRawDataModules;
    if v <= 10 {
      Codewords1(v);
    } else if v <= 20 {
      Codewords11(v);
    } else if v <= 30 {
      Codewords21(v);
    } else {
      Codewords31(v);
    }
  }

  lemma Low1(v: nat)
    requires 1 <= v <= 10
    ensures CODEWORDS[v - 1] - ECC_LOW[v] * BLOCKS_LOW[v] == DATA_LOW[v - 1]
  {
    assert v == 1 || v == 2 || v == 3 || v == 4 || v == 5
        || v == 6 || v == 7 || v == 8 || v == 9 || v == 10;
  }

  lemma Low11(v: nat)
    requires 11 <= v <= 20
    ensures CODEWORDS[v - 1] - ECC_LOW[v] * BLOCKS_LOW[v] == DATA_LOW[v - 1]
  {
    assert v == 11 || v == 12 || v == 13 || v == 14 || v == 15
        || v == 16 || v == 17 || v == 18 || v == 19 || v == 20;
  }

  lemma Low21(v: nat)
    requires 21 <= v <= 30
    ensures CODEWORDS[v - 1] - ECC_LOW[v] * BLOCKS_LOW[v] == DATA_LOW[v - 1]
  {
    assert v == 21 || v == 22 || v == 23 || v == 24 || v == 25
        || v == 26 || v == 27 || v == 28 || v == 29 || v == 30;
  }

  lemma Low31(v: nat)
    requires 31 <= v <= 40
    ensures CODEWORDS[v - 1] - ECC_LOW[v] * BLOCKS_LOW[v] == DATA_LOW[v - 1]
  {
    assert v == 31 || v == 32 || v == 33 || v == 34 || v == 35
        || v == 36 || v == 37 || v == 38 || v == 39 || v == 40;
  }

  lemma Medium1(v: nat)
    requires 1 <= v <= 10
    ensures CODEWORDS[v - 1] - ECC_MEDIUM[v] * BLOCKS_MEDIUM[v] == DATA_MEDIUM[v - 1]
  {
    assert v == 1 || v == 2 || v == 3 || v == 4 || v == 5
        || v == 6 || v == 7 || v == 8 || v == 9 || v == 10;
  }

  lemma Medium11(v: nat)
    requires 11 <= v <= 20
    ensures CODEWORDS[v - 1] - ECC_MEDIUM[v] * BLOCKS_MEDIUM[v] == DATA_MEDIUM[v - 1]
  {
    assert v == 11 || v == 12 || v == 13 || v == 14 || v == 15
        || v == 16 || v == 17 || v == 18 || v == 19 || v == 20;
  }

  lemma Medium21(v: nat)
    requires 21 <= v <= 30
    ensures CODEWORDS[v - 1] - ECC_MEDIUM[v] * BLOCKS_MEDIUM[v] == DATA_MEDIUM[v - 1]
  {
    assert v == 21 || v == 22 || v == 23 || v == 24 || v == 25
        || v == 26 || v == 27 || v == 28 || v == 29 || v == 30;
  }

  lemma Medium31(v: nat)
    requires 31 <= v <= 40
    ensures CODEWORDS[v - 1] - ECC_MEDIUM[v] * BLOCKS_MEDIUM[v] == DATA_MEDIUM[v - 1]
  {
    assert v == 31 || v == 32 || v == 33 || v == 34 || v == 35
        || v == 36 || v == 37 || v == 38 || v == 39 || v == 40;
  }

  lemma Quartile1(v: nat)
    requires 1 <= v <= 10
    ensures CODEWORDS[v - 1] - ECC_QUARTILE[v] * BLOCKS_QUARTILE[v] == DATA_QUARTILE[v - 1]
  {
    assert v == 1 || v == 2 || v == 3 || v == 4 || v == 5
        || v == 6 || v == 7 || v == 8 || v == 9 || v == 10;
  }

  lemma Quartile11(v: nat)
    requires 11 <= v <= 20
    ensures CODEWORDS[v - 1] - ECC_QUARTILE[v] * BLOCKS_QUARTILE[v] == DATA_QUARTILE[v - 1]
  {
    assert v == 11 || v == 12 || v == 13 || v == 14 || v == 15
        || v == 16 || v == 17 || v == 18 || v == 19 || v == 20;
  }

  lemma Quartile21(v: nat)
    requires 21 <= v <= 30
    ensures CODEWORDS[v - 1] - ECC_QUARTILE[v] * BLOCKS_QUARTILE[v] == DATA_QUARTILE[v - 1]
  {
    assert v == 21 || v == 22 || v == 23 || v == 24 || v == 25
        || v == 26 || v == 27 || v == 28 || v == 29 || v == 30;
  }

  lemma Quartile31(v: nat)
    requires 31 <= v <= 40
    ensures CODEWORDS[v - 1] - ECC_QUARTILE[v] * BLOCKS_QUARTILE[v] == DATA_QUARTILE[v - 1]
  {
    assert v == 31 || v == 32 || v == 33 || v == 34 || v == 35
        || v == 36 || v == 37 || v == 38 || v == 39 || v == 40;
  }

  lemma High1(v: nat)
    requires 1 <= v <= 10
    ensures CODEWORDS[v - 1] - ECC_HIGH[v] * BLOCKS_HIGH[v] == DATA_HIGH[v - 1]
  {
    assert v == 1 || v == 2 || v == 3 || v == 4 || v == 5
        || v == 6 || v == 7 || v == 8 || v == 9 || v == 10;
  }

  lemma High11(v: nat)
    requires 11 <= v <= 20
    ensures CODEWORDS[v - 1] - ECC_HIGH[v] * BLOCKS_HIGH[v] == DATA_HIGH[v - 1]
  {
    assert v == 11 || v == 12 || v == 13 || v == 14 || v == 15
        || v == 16 || v == 17 || v == 18 || v == 19 || v == 20;
  }

  lemma High21(v: nat)
    requires 21 <= v <= 30
    ensures CODEWORDS[v - 1] - ECC_HIGH[v] * BLOCKS_HIGH[v] == DATA_HIGH[v - 1]
  {
    assert v == 21 || v == 22 || v == 23 || v == 24 || v == 25
        || v == 26 || v == 27 || v == 28 || v == 29 || v == 30;
  }

  lemma High31(v: nat)
    requires 31 <= v <= 40
    ensures CODEWORDS[v - 1] - ECC_HIGH[v] * BLOCKS_HIGH[v] == DATA_HIGH[v - 1]
  {
    assert v == 31 || v == 32 || v == 33 || v == 34 || v == 35
        || v == 36 || v == 37 || v == 38 || v == 39 || v == 40;
  }

  lemma AllLow(v: nat)
    requires 1 <= v <= 40
    ensures CODEWORDS[v - 1] - ECC_LOW[v] * BLOCKS_LOW[v] == DATA_LOW[v - 1]
  {
    if v <= 10 {
      Low1(v);
    } else if v <= 20 {
      Low11(v);
    } else if v <= 30 {
      Low21(v);
    } else {
      Low31(v);
    }
  }

  lemma AllMedium(v: nat)
    requires 1 <= v <= 40
    ensures CODEWORDS[v - 1] - ECC_MEDIUM[v] * BLOCKS_MEDIUM[v] == DATA_MEDIUM[v - 1]
  {
    if v <= 10 {
      Medium1(v);
    } else if v <= 20 {
      Medium11(v);
    } else if v <= 30 {
      Medium21(v);
    } else {
      Medium31(v);
    }
  }

  lemma AllQuartile(v: nat)
    requires 1 <= v <= 40
    ensures CODEWORDS[v - 1] - ECC_QUARTILE[v] * BLOCKS_QUARTILE[v] == DATA_QUARTILE[v - 1]
  {
    if v <= 10 {
      Quartile1(v);
    } else if v <= 20 {
      Quartile11(v);
    } else if v <= 30 {
      Quartile21(v);
    } else {
      Quartile31(v);
    }
  }

  lemma AllHigh(v: nat)
    requires 1 <= v <= 40
    ensures CODEWORDS[v - 1] - ECC_HIGH[v] * BLOCKS_HIGH[v] == DATA_HIGH[v - 1]
  {
    if v <= 10 {
      High1(v);
    } else if v <= 20 {
      High11(v);
    } else if v <= 30 {
      High21(v);
    } else {
      High31(v);
    }
  }

  /** The capacity of every symbol is the tabulated one. */
  lemma CapacityIsStandard(version: nat, ecl: Ecc)
    requires 1 <= version <= 40
    ensures NumDataCodewords(version, ecl) == DataCodewords(version, ecl)
  {
    hide NumRawDataModules;
    CodewordsAreStandard(version);
    match ecl
    case Low => AllLow(version);
    case Medium => AllMedium(version);
    case Quartile => AllQuartile(version);
    case High => AllHigh(version);
  }

  // ---------- Centers of the alignment patterns (table E.1) ----------

  /** Versions 2 to 6. */
  const TWO_CENTERS: seq<seq<int>> := [
    [6, 18], [6, 22], [6, 26], [6, 30], [6, 34]]

  /** Versions 7 to 13. */
  const THREE_CENTERS: seq<seq<int>> := [
    [6, 22, 38], [6, 24, 42], [6, 26, 46], [6, 28, 50], [6, 30, 54], [6, 32, 58], [6, 34, 62]]

  /** Versions 14 to 20. */
  const FOUR_CENTERS: seq<seq<int>> := [
    [6, 26, 46, 66], [6, 26, 48, 70], [6, 26, 50, 74], [6, 30, 54, 78], [6, 30, 56, 82], [6, 30, 58, 86],
    [6, 34, 62, 90]]

  /** Versions 21 to 27. */
  const FIVE_CENTERS: seq<seq<int>> := [
    [6, 28, 50, 72, 94], [6, 26, 50, 74, 98], [6, 30, 54, 78, 102], [6, 28, 54, 80, 106], [6, 32, 58, 84, 110],
    [6, 30, 58, 86, 114], [6, 34, 62, 90, 118]]

  /** Versions 28 to 34. */
  const SIX_CENTERS: seq<seq<int>> := [
    [6, 26, 50, 74, 98, 122], [6, 30, 54, 78, 102, 126], [6, 26, 52, 78, 104, 130], [6, 30, 56, 82, 108, 134],
    [6, 34, 60, 86, 112, 138], [6, 30, 58, 86, 114, 142], [6, 34, 62, 90, 118, 146]]

  /** Versions 35 to 40. */
  const SEVEN_CENTERS: seq<seq<int>> := [
    [6, 30, 54, 78, 102, 126, 150], [6, 24, 50, 76, 102, 128, 154], [6, 28, 54, 80, 106, 132, 158],
    [6, 32, 58, 84, 110, 136, 162], [6, 26, 54, 82, 110, 138, 166], [6, 30, 58, 86, 114, 142, 170]]

  function Centers(version: nat): seq<int>
    requires 1 <= version <= 40
  {
    if version == 1 then []
    else if version <= 6 then TWO_CENTERS[version - 2]
    else if version <= 13 then THREE_CENTERS[version - 7]
    else if version <= 20 then FOUR_CENTERS[version - 14]
    else if version <= 27 then FIVE_CENTERS[version - 21]
    else if version <= 34 then SIX_CENTERS[version - 28]
    else SEVEN_CENTERS[version - 35]
  }

  lemma Spread2(version: nat)
    requires IsVersion(version) && version >= 2 && NumAlign(version) == 2
    ensures var last, step := Size(version) - 7, AlignStep(version);
      AlignPositions(version) == [6, last]
  {
    hide AlignStep;
    StepTimes(AlignStep(version));
    assert version == 2 || version == 3 || version == 4 || version == 5 || version == 6;
  }

  lemma Spread3(version: nat)
    requires IsVersion(version) && version >= 2 && NumAlign(version) == 3
    ensures var last, step := Size(version) - 7, AlignStep(version);
      AlignPositions(version) == [6, last - step, last]
  {
    hide AlignStep;
    StepTimes(AlignStep(version));
    assert version == 7 || version == 8 || version == 9 || version == 10
        || version == 11 || version == 12 || version == 13;
  }

  lemma Spread4(version: nat)
    requires IsVersion(version) && version >= 2 && NumAlign(version) == 4
    ensures var last, step := Size(version) - 7, AlignStep(version);
      AlignPositions(version) == [6, last - 2 * step, last - step, last]
  {
    hide AlignStep;
    StepTimes(AlignStep(version));
    assert version == 14 || version == 15 || version == 16 || version == 17
        || version == 18 || version == 19 || version == 20;
  }

  lemma Spread5(version: nat)
    requires IsVersion(version) && version >= 2 && NumAlign(version) == 5
    ensures var last, step := Size(version) - 7, AlignStep(version);
      AlignPositions(version) == [6, last - 3 * step, last - 2 * step, last - step, last]
  {
    hide AlignStep;
    StepTimes(AlignStep(version));
    assert version == 21 || version == 22 || version == 23 || version == 24
        || version == 25 || version == 26 || version == 27;
  }

  lemma Spread6(version: nat)
    requires IsVersion(version) && version >= 2 && NumAlign(version) == 6
    ensures var last, step := Size(version) - 7, AlignStep(version);
      AlignPositions(version) == [6, last - 4 * step, last - 3 * step, last - 2 * step, last - step, last]
  {
    hide AlignStep;
    StepTimes(AlignStep(version));
    assert version == 28 || version == 29 || version == 30 || version == 31
        || version == 32 || version == 33 || version == 34;
  }

  lemma Spread7(version: nat)
    requires IsVersion(version) && version >= 2 && NumAlign(version) == 7
    ensures var last, step := Size(version) - 7, AlignStep(version);
      AlignPositions(version)
      == [6, last - 5 * step, last - 4 * step, last - 3 * step, last - 2 * step, last - step, last]
  {
    hide AlignStep;
    StepTimes(AlignStep(version));
    assert version == 35 || version == 36 || version == 37 || version == 38 || version == 39 || version == 40;
  }

  lemma Centers2(version: nat)
    requires 2 <= version <= 6
    ensures AlignPositions(version) == TWO_CENTERS[version - 2]
  {
    hide AlignPositions;
    if version == 2 {
      Spread2(2);
      assert AlignPositions(2) == [6, 18];
    } else if version == 3 {
      Spread2(3);
      assert AlignPositions(3) == [6, 22];
    } else if version == 4 {
      Spread2(4);
      assert AlignPositions(4) == [6, 26];
    } else if version == 5 {
      Spread2(5);
      assert AlignPositions(5) == [6, 30];
    } else {
      Spread2(6);
      assert AlignPositions(6) == [6, 34];
    }
  }

  lemma Centers7(version: nat)
    requires 7 <= version <= 10
    ensures AlignPositions(version) == THREE_CENTERS[version - 7]
  {
    hide AlignPositions;
    if version == 7 {
      Spread3(7);
      assert AlignPositions(7) == [6, 22, 38];
    } else if version == 8 {
      Spread3(8);
      assert AlignPositions(8) == [6, 24, 42];
    } else if version == 9 {
      Spread3(9);
      assert AlignPositions(9) == [6, 26, 46];
    } else {
      Spread3(10);
      assert AlignPositions(10) == [6, 28, 50];
    }
  }

  lemma Centers11(version: nat)
    requires 11 <= version <= 13
    ensures AlignPositions(version) == THREE_CENTERS[version - 7]
  {
    hide AlignPositions;
    if version == 11 {
      Spread3(11);
      assert AlignPositions(11) == [6, 30, 54];
    } else if version == 12 {
      Spread3(12);
      assert AlignPositions(12) == [6, 32, 58];
    } else {
      Spread3(13);
      assert AlignPositions(13) == [6, 34, 62];
    }
  }

  lemma Centers14(version: nat)
    requires 14 <= version <= 16
    ensures AlignPositions(version) == FOUR_CENTERS[version - 14]
  {
    hide AlignPositions;
    if version == 14 {
      Spread4(14);
      assert AlignPositions(14) == [6, 26, 46, 66];
    } else if version == 15 {
      Spread4(15);
      assert AlignPositions(15) == [6, 26, 48, 70];
    } else {
      Spread4(16);
      assert AlignPositions(16) == [6, 26, 50, 74];
    }
  }

  lemma Centers17(version: nat)
    requires 17 <= version <= 20
    ensures AlignPositions(version) == FOUR_CENTERS[version - 14]
  {
    hide AlignPositions;
    if version == 17 {
      Spread4(17);
      assert AlignPositions(17) == [6, 30, 54, 78];
    } else if version == 18 {
      Spread4(18);
      assert AlignPositions(18) == [6, 30, 56, 82];
    } else if version == 19 {
      Spread4(19);
      assert AlignPositions(19) == [6, 30, 58, 86];
    } else {
      Spread4(20);
      assert AlignPositions(20) == [6, 34, 62, 90];
    }
  }

  lemma Centers21(version: nat)
    requires 21 <= version <= 24
    ensures AlignPositions(version) == FIVE_CENTERS[version - 21]
  {
    hide AlignPositions;
    if version == 21 {
      Spread5(21);
      assert AlignPositions(21) == [6, 28, 50, 72, 94];
    } else if version == 22 {
      Spread5(22);
      assert AlignPositions(22) == [6, 26, 50, 74, 98];
    } else if version == 23 {
      Spread5(23);
      assert AlignPositions(23) == [6, 30, 54, 78, 102];
    } else {
      Spread5(24);
      assert AlignPositions(24) == [6, 28, 54, 80, 106];
    }
  }

  lemma Centers25(version: nat)
    requires 25 <= version <= 27
    ensures AlignPositions(version) == FIVE_CENTERS[version - 21]
  {
    hide AlignPositions;
    if version == 25 {
      Spread5(25);
      assert AlignPositions(25) == [6, 32, 58, 84, 110];
    } else if version == 26 {
      Spread5(26);
      assert AlignPositions(26) == [6, 30, 58, 86, 114];
    } else {
      Spread5(27);
      assert AlignPositions(27) == [6, 34, 62, 90, 118];
    }
  }

  lemma Centers28(version: nat)
    requires 28 <= version <= 31
    ensures AlignPositions(version) == SIX_CENTERS[version - 28]
  {
    hide AlignPositions;
    if version == 28 {
      Spread6(28);
      assert AlignPositions(28) == [6, 26, 50, 74, 98, 122];
    } else if version == 29 {
      Spread6(29);
      assert AlignPositions(29) == [6, 30, 54, 78, 102, 126];
    } else if version == 30 {
      Spread6(30);
      assert AlignPositions(30) == [6, 26, 52, 78, 104, 130];
    } else {
      Spread6(31);
      assert AlignPositions(31) == [6, 30, 56, 82, 108, 134];
    }
  }

  lemma Centers32(version: nat)
    requires 32 <= version <= 34
    ensures AlignPositions(version) == SIX_CENTERS[version - 28]
  {
    hide AlignPositions;
    if version == 32 {
      Spread6(32);
      assert AlignPositions(32) == [6, 34, 60, 86, 112, 138];
    } else if version == 33 {
      Spread6(33);
      assert AlignPositions(33) == [6, 30, 58, 86, 114, 142];
    } else {
      Spread6(34);
      assert AlignPositions(34) == [6, 34, 62, 90, 118, 146];
    }
  }

  lemma Centers35(version: nat)
    requires 35 <= version <= 37
    ensures AlignPositions(version) == SEVEN_CENTERS[version - 35]
  {
    hide AlignPositions;
    if version == 35 {
      Spread7(35);
      assert AlignPositions(35) == [6, 30, 54, 78, 102, 126, 150];
    } else if version == 36 {
      Spread7(36);
      assert AlignPositions(36) == [6, 24, 50, 76, 102, 128, 154];
    } else {
      Spread7(37);
      assert AlignPositions(37) == [6, 28, 54, 80, 106, 132, 158];
    }
  }

  lemma Centers38(version: nat)
    requires 38 <= version <= 40
    ensures AlignPositions(version) == SEVEN_CENTERS[version - 35]
  {
    hide AlignPositions;
    if version == 38 {
      Spread7(38);
      assert AlignPositions(38) == [6, 32, 58, 84, 110, 136, 162];
    } else if version == 39 {
      Spread7(39);
      assert AlignPositions(39) == [6, 26, 54, 82, 110, 138, 166];
    } else {
      Spread7(40);
      assert AlignPositions(40) == [6, 30, 58, 86, 114, 142, 170];
    }
  }

  lemma CentersAreStandard(version: nat)
    requires 1 <= version <= 40
    ensures AlignPositions(version) == Centers(version)
  {
    hide AlignPositions;
    if version == 1 {
      NoCenters();
    } else if version <= 6 {
      Centers2(version);
    } else if version <= 10 {
      Centers7(version);
    } else if version <= 13 {
      Centers11(version);
    } else if version <= 16 {
      Centers14(version);
    } else if version <= 20 {
      Centers17(version);
    } else if version <= 24 {
      Centers21(version);
    } else if version <= 27 {
      Centers25(version);
    } else if version <= 31 {
      Centers28(version);
    } else if version <= 34 {
      Centers32(version);
    } else if version <= 37 {
      Centers35(version);
    } else {
      Centers38(version);
    }
  }

  lemma NoCenters()
    ensures AlignPositions(1) == []
  {}
}
