/** Reading the version back from either version block of a finished symbol. */
module QrVersion {
  import opened QrGrid
  import opened QrPatterns
  import opened QrMask
  import opened QrFormat
  import opened QrCode
  import opened QrLook

  // ---------- The version word ----------

  lemma VersionStepSmall(rem: bv32)
    requires rem < 4096
    ensures VersionStep(rem) < 4096
  {}

  lemma {:induction false} VersionRemainderSmall(version: bv32, n: nat)
    requires version < 4096
    ensures VersionRemainder(version, n) < 4096
  {
    hide VersionStep;
    if n > 0 {
      VersionRemainderSmall(version, n - 1);
      VersionStepSmall(VersionRemainder(version, n - 1));
    }
  }

  /** The version stands in the top six bits. */
  lemma VersionTop(version: bv32, rem: bv32, i: nat)
    requires version < 64 && rem < 4096 && i < 6
    ensures GetBit(VersionWord(version, rem), 12 + i) == GetBit(version, i)
  {
    assert i == 0 || i == 1 || i == 2 || i == 3 || i == 4 || i == 5;
  }

  /** The version from the eighteen bits, lowest first. */
  function DecodeVersion(bits: seq<bool>): nat
    requires |bits| == 18
  {
    Digit(bits[12]) + 2 * Digit(bits[13]) + 4 * Digit(bits[14]) + 8 * Digit(bits[15]) + 16 * Digit(bits[16])
    + 32 * Digit(bits[17])
  }

  function VersionWordBits(word: bv32): (bits: seq<bool>)
    ensures |bits| == 18
  {
    seq(18, i requires 0 <= i < 18 => GetBit(word, i))
  }

  /** The number that the low six bits of v stand for. */
  function LowSix(v: bv32): nat {
    Digit(GetBit(v, 0)) + 2 * Digit(GetBit(v, 1)) + 4 * Digit(GetBit(v, 2)) + 8 * Digit(GetBit(v, 3))
    + 16 * Digit(GetBit(v, 4)) + 32 * Digit(GetBit(v, 5))
  }

  lemma SmallBits0(version: nat)
    requires version <= 5
    ensures version as bv32 < 64 && LowSix(version as bv32) == version
  {
    assert version == 0 || version == 1 || version == 2 || version == 3 || version == 4 || version == 5;
  }

  lemma SmallBits1(version: nat)
    requires 6 <= version <= 10
    ensures version as bv32 < 64 && LowSix(version as bv32) == version
  {
    assert version == 6 || version == 7 || version == 8 || version == 9 || version == 10;
  }

  lemma SmallBits2(version: nat)
    requires 11 <= version <= 15
    ensures version as bv32 < 64 && LowSix(version as bv32) == version
  {
    assert version == 11 || version == 12 || version == 13 || version == 14 || version == 15;
  }

  lemma SmallBits3(version: nat)
    requires 16 <= version <= 20
    ensures version as bv32 < 64 && LowSix(version as bv32) == version
  {
    assert version == 16 || version == 17 || version == 18 || version == 19 || version == 20;
  }

  lemma SmallBits4(version: nat)
    requires 21 <= version <= 25
    ensures version as bv32 < 64 && LowSix(version as bv32) == version
  {
    assert version == 21 || version == 22 || version == 23 || version == 24 || version == 25;
  }

  lemma SmallBits5(version: nat)
    requires 26 <= version <= 30
    ensures version as bv32 < 64 && LowSix(version as bv32) == version
  {
    assert version == 26 || version == 27 || version == 28 || version == 29 || version == 30;
  }

  lemma SmallBits6(version: nat)
    requires 31 <= version <= 35
    ensures version as bv32 < 64 && LowSix(version as bv32) == version
  {
    assert version == 31 || version == 32 || version == 33 || version == 34 || version == 35;
  }

  lemma SmallBits7(version: nat)
    requires 36 <= version <= 40
    ensures version as bv32 < 64 && LowSix(version as bv32) == version
  {
    assert version == 36 || version == 37 || version == 38 || version == 39 || version == 40;
  }

  lemma SmallBits(version: nat)
    requires version <= 40
    ensures version as bv32 < 64 && LowSix(version as bv32) == version
  {
    hide LowSix;
    if version <= 5 {
      SmallBits0(version);
    } else if version <= 10 {
      SmallBits1(version);
    } else if version <= 15 {
      SmallBits2(version);
    } else if version <= 20 {
      SmallBits3(version);
    } else if version <= 25 {
      SmallBits4(version);
    } else if version <= 30 {
      SmallBits5(version);
    } else if version <= 35 {
      SmallBits6(version);
    } else {
      SmallBits7(version);
    }
  }

  /** The version word names its version. */
  lemma VersionRoundTrip(version: nat)
    requires version <= 40
    ensures DecodeVersion(VersionWordBits(VersionBits(version))) == version
  {
    hide VersionWord, VersionRemainder, GetBit;
    var v := version as bv32;
    SmallBits(version);
    VersionRemainderSmall(v, 12);
    var rem := VersionRemainder(v, 12);
    VersionTop(v, rem, 0);
    VersionTop(v, rem, 1);
    VersionTop(v, rem, 2);
    VersionTop(v, rem, 3);
    VersionTop(v, rem, 4);
    VersionTop(v, rem, 5);
  }

  // ---------- The version blocks ----------

  /** Where version bit i stands in the block above the lower left finder or beside the upper right one. */
  function VersionCell(size: nat, i: nat, beside: bool): (c: Cell)
    requires i < 18 && size >= 21
    ensures Inside(c, size)
  {
    if beside then Cell(size - 11 + i % 3, i / 3) else Cell(i / 3, size - 11 + i % 3)
  }

  lemma {:induction false} VersionCellsAt(size: nat, bits: bv32, n: nat, i: nat)
    requires size >= 21 && i < n <= 18
    ensures var m := VersionCells(size, bits, n);
      |m| == 2 * n
      && m[2 * i] == Mark(VersionCell(size, i, true), GetBit(bits, i))
      && m[2 * i + 1] == Mark(VersionCell(size, i, false), GetBit(bits, i))
  {
    hide GetBit;
    if i < n - 1 {
      VersionCellsAt(size, bits, n - 1, i);
    } else if n > 1 {
      VersionCellsAt(size, bits, n - 1, 0);
    }
  }

  lemma VersionCellsDiffer(size: nat, i: nat, a: bool, j: nat, b: bool)
    requires size >= 45 && i < 18 && j < 18 && VersionCell(size, i, a) == VersionCell(size, j, b)
    ensures i == j && a == b
  {}

  lemma VersionMarkAt(size: nat, bits: bv32, j: nat)
    requires size >= 21 && j < 36
    ensures var m := VersionCells(size, bits, 18);
      |m| == 36 && m[j] == Mark(VersionCell(size, j / 2, j % 2 == 0), GetBit(bits, j / 2))
  {
    hide GetBit, VersionCells, VersionCell;
    VersionCellsAt(size, bits, 18, j / 2);
  }

  lemma VersionMarksDiffer(size: nat, bits: bv32, i: nat, j: nat)
    requires size >= 45 && i < j < 36
    ensures |VersionCells(size, bits, 18)| == 36
    ensures VersionCells(size, bits, 18)[i].cell != VersionCells(size, bits, 18)[j].cell
  {
    hide GetBit, VersionCells, VersionCell;
    VersionMarkAt(size, bits, i);
    VersionMarkAt(size, bits, j);
    if VersionCell(size, i / 2, i % 2 == 0) == VersionCell(size, j / 2, j % 2 == 0) {
      VersionCellsDiffer(size, i / 2, i % 2 == 0, j / 2, j % 2 == 0);
    }
  }

  lemma VersionShows(g: Grid, version: nat, i: nat, beside: bool)
    requires 7 <= version <= 40 && Square(g, Size(version)) && i < 18
    ensures At(DrawMarks(g, VersionMarks(version)), VersionCell(Size(version), i, beside))
      == GetBit(VersionBits(version), i)
  {
    hide GetBit, VersionBits, DrawMarks, VersionCell, VersionCells;
    var size, word, marks := Size(version), VersionBits(version), VersionMarks(version);
    var at := if beside then 2 * i else 2 * i + 1;
    VersionMarkAt(size, word, at);
    forall j | at < j < |marks|
      ensures marks[j].cell != marks[at].cell
    {
      VersionMarksDiffer(size, word, at, j);
    }
    DrawShows(g, marks, at);
  }

  // ---------- The finished symbol ----------

  lemma VersionMarked(version: nat, ecl: Ecc, i: nat, beside: bool)
    requires 7 <= version <= 40 && i < 18
    ensures Marked(FunctionMarks(version, ecl), VersionCell(Size(version), i, beside))
  {
    hide FormatMarks, FixedMarks, VersionCells, FormatBits, VersionBits, Marked, VersionCell;
    var size, marks := Size(version), VersionMarks(version);
    var before := FixedMarks(version) + FormatMarks(size, FormatBits(ecl, 0));
    var at := if beside then 2 * i else 2 * i + 1;
    VersionMarkAt(size, VersionBits(version), at);
    IsMarked(marks, at);
    MarkedConcat(before, marks, marks[at].cell);
  }

  /** The function patterns show the version. */
  lemma VersionPrepared(version: nat, ecl: Ecc, i: nat, beside: bool)
    requires 7 <= version <= 40 && i < 18
    ensures At(Prepared(version, ecl), VersionCell(Size(version), i, beside)) == GetBit(VersionBits(version), i)
  {
    hide VersionCell, GetBit, VersionBits, FormatMarks, FixedMarks, VersionMarks, DrawMarks, FormatBits;
    var before := FixedMarks(version) + FormatMarks(Size(version), FormatBits(ecl, 0));
    DrawConcat(Blank(Size(version)), before, VersionMarks(version));
    VersionShows(DrawMarks(Blank(Size(version)), before), version, i, beside);
  }

  function ReadVersion(g: Grid, beside: bool): (bits: seq<bool>)
    requires Square(g, |g|) && |g| >= 45
    ensures |bits| == 18
  {
    seq(18, i requires 0 <= i < 18 => At(g, VersionCell(|g|, i, beside)))
  }

  /** From version 7 on, either block of a finished symbol names the version, whatever data and mask it has. */
  lemma VersionReadsBack(version: nat, ecl: Ecc, codewords: seq<bv8>, mask: nat, beside: bool)
    requires 7 <= version <= 40 && mask < 8
    ensures var g := Trial(CodedGrid(version, ecl, codewords), FunctionGrid(version, ecl), ecl, mask);
      DecodeVersion(ReadVersion(g, beside)) == version
  {
    hide GetBit, VersionBits, FunctionGrid, FunctionMarks, CodedGrid, Prepared, Trial, DecodeVersion, Marked;
    var g := Trial(CodedGrid(version, ecl, codewords), FunctionGrid(version, ecl), ecl, mask);
    forall i | 0 <= i < 18
      ensures ReadVersion(g, beside)[i] == VersionWordBits(VersionBits(version))[i]
    {
      VersionMarked(version, ecl, i, beside);
      FunctionCellKept(version, ecl, codewords, mask, VersionCell(Size(version), i, beside));
      VersionPrepared(version, ecl, i, beside);
    }
    assert ReadVersion(g, beside) == VersionWordBits(VersionBits(version));
    VersionRoundTrip(version);
  }
}
