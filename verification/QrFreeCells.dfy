/** The function modules fill the region, so exactly NumRawDataModules modules are left for the data. */
module QrFreeCells {
  import opened Arithmetic
  import opened QrGrid
  import opened QrScan
  import opened QrPatterns
  import opened QrCapacity

  // ---------- Every function module lies in the region ----------

  ghost predicate MarksIn(marks: seq<Mark>, s: set<Cell>) {
    forall i :: 0 <= i < |marks| ==> marks[i].cell in s
  }

  lemma InCorner(version: nat, c: Cell, k: nat)
    requires IsVersion(version) && k < 11 && c in CornerRects(Size(version))[k]
    ensures c in Region(version)
  {}

  lemma {:induction false} TimingInRegion(version: nat, n: nat)
    requires IsVersion(version) && n <= Size(version)
    ensures MarksIn(TimingMarks(Size(version), n), Region(version))
  {
    hide Region, Rect;
    if n > 0 {
      var i, size := n - 1, Size(version);
      TimingInRegion(version, i);
      InCorner(version, Cell(i, 6), if i < 8 then 0 else if i < size - 8 then 3 else 1);
      InCorner(version, Cell(6, i), if i < 8 then 0 else if i < size - 8 then 4 else 2);
    }
  }

  /** The clipped 9x9 finder pattern at (x, y) lies in corner rectangle k. */
  predicate FinderAt(size: nat, x: int, y: int, k: nat) {
    || (k == 0 && x == 3 && y == 3)
    || (k == 1 && x == size - 4 && y == 3)
    || (k == 2 && x == 3 && y == size - 4)
  }

  lemma FinderCellInRegion(version: nat, x: int, y: int, k: nat, dx: int, dy: int)
    requires IsVersion(version) && FinderAt(Size(version), x, y, k) && -4 <= dx <= 4 && -4 <= dy <= 4
    requires 0 <= x + dx < Size(version) && 0 <= y + dy < Size(version)
    ensures Cell(x + dx, y + dy) in Region(version)
  {
    hide Region, Rect;
    InCorner(version, Cell(x + dx, y + dy), k);
  }

  lemma {:induction false} FinderRowInRegion(version: nat, x: int, y: int, k: nat, dy: int, n: nat)
    requires IsVersion(version) && FinderAt(Size(version), x, y, k) && -4 <= dy <= 4 && n <= 9
    ensures MarksIn(FinderRow(Size(version), x, y, dy, n), Region(version))
  {
    hide Region, Rect, CornerRects, FinderAt;
    if n > 0 {
      FinderRowInRegion(version, x, y, k, dy, n - 1);
      var size, dx := Size(version), n - 5;
      if 0 <= x + dx < size && 0 <= y + dy < size {
        FinderCellInRegion(version, x, y, k, dx, dy);
      }
    }
  }

  lemma {:induction false} FinderInRegion(version: nat, x: int, y: int, k: nat, n: nat)
    requires IsVersion(version) && FinderAt(Size(version), x, y, k) && n <= 9
    ensures MarksIn(FinderMarks(Size(version), x, y, n), Region(version))
  {
    hide Region, FinderRow;
    if n > 0 {
      FinderInRegion(version, x, y, k, n - 1);
      FinderRowInRegion(version, x, y, k, n - 5, 9);
    }
  }

  lemma FormatInRegion(version: nat, bits: bv32)
    requires IsVersion(version)
    ensures MarksIn(FormatMarks(Size(version), bits), Region(version))
  {
    hide Region, Rect, GetBit;
    var size := Size(version);
    var first, second := FirstCopy(size, bits), SecondCopy(size, bits);
    forall i | 0 <= i < |first|
      ensures first[i].cell in Region(version)
    {
      InCorner(version, first[i].cell, if i < 6 then 5 else if i < 8 then 6 else if i == 8 then 7 else 8);
    }
    forall i | 0 <= i < |second|
      ensures second[i].cell in Region(version)
    {
      InCorner(version, second[i].cell, if i < 8 then 9 else 10);
    }
  }

  lemma InVersion(version: nat, c: Cell)
    requires 7 <= version <= 40
    requires (Size(version) - 11 <= c.x < Size(version) - 8 && c.y < 6)
      || (Size(version) - 11 <= c.y < Size(version) - 8 && c.x < 6)
    ensures c in Region(version)
  {
    hide Union, CornerRects, InnerSquares, EdgeSquares, Rect;
  }

  lemma {:induction false} VersionInRegion(version: nat, bits: bv32, n: nat)
    requires 7 <= version <= 40 && n <= 18
    ensures MarksIn(VersionCells(Size(version), bits, n), Region(version))
  {
    hide Region, GetBit, VersionRects;
    if n > 0 {
      VersionInRegion(version, bits, n - 1);
      var i, size := n - 1, Size(version);
      InVersion(version, Cell(size - 11 + i % 3, i / 3));
      InVersion(version, Cell(i / 3, size - 11 + i % 3));
    }
  }

  lemma OnTiming(version: nat, c: Cell, k: nat)
    requires IsVersion(version)
    requires (k == 3 && c.y == 6 && 8 <= c.x < Size(version) - 8)
      || (k == 4 && c.x == 6 && 8 <= c.y < Size(version) - 8)
    ensures c in Region(version)
  {
    hide Region, Rect;
    InCorner(version, c, k);
  }

  /** Cells of an alignment pattern that is drawn. */
  lemma AlignmentCellInRegion(version: nat, i: nat, j: nat, c: Cell)
    requires 2 <= version <= 40 && i < NumAlign(version) && j < NumAlign(version)
    requires OnAlignment(version, i, j, c) && Inside(c, Size(version))
    requires !(i == 0 && j == 0) && !(i == 0 && j == NumAlign(version) - 1) && !(i == NumAlign(version) - 1 && j == 0)
    ensures c in Region(version)
  {
    hide NumAlign, Rect, CornerRects, InnerSquares, EdgeSquares, Union, VersionRects;
    AlignPositionsFit(version, i);
    AlignPositionsFit(version, j);
    if i > 0 && j > 0 {
      InnerSquaresHold(version);
    } else {
      EdgeSquaresHold(version);
      if i == 0 && c.x == 6 {
        OnTiming(version, c, 4);
      } else if j == 0 && c.y == 6 {
        OnTiming(version, c, 3);
      }
    }
  }

  predicate Drawn(version: nat, i: nat, j: nat) {
    && 2 <= version <= 40 && i < NumAlign(version) && j < NumAlign(version)
    && !(i == 0 && j == 0) && !(i == 0 && j == NumAlign(version) - 1) && !(i == NumAlign(version) - 1 && j == 0)
  }

  lemma {:induction false} AlignmentRowInRegion(version: nat, i: nat, j: nat, dy: int, n: nat)
    requires Drawn(version, i, j) && -2 <= dy <= 2 && n <= 5
    ensures AlignmentFits(Size(version), AlignPositions(version)[i], AlignPositions(version)[j])
    ensures MarksIn(AlignmentRow(Size(version), AlignPositions(version)[i], AlignPositions(version)[j], dy, n),
      Region(version))
  {
    hide Region, NumAlign, AlignPositions;
    AlignPositionsFit(version, i);
    AlignPositionsFit(version, j);
    if n > 0 {
      AlignmentRowInRegion(version, i, j, dy, n - 1);
      var p := AlignPositions(version);
      AlignmentCellInRegion(version, i, j, Cell(p[i] + n - 3, p[j] + dy));
    }
  }

  lemma {:induction false} AlignmentInRegion(version: nat, i: nat, j: nat, n: nat)
    requires Drawn(version, i, j) && n <= 5
    ensures AlignmentFits(Size(version), AlignPositions(version)[i], AlignPositions(version)[j])
    ensures MarksIn(AlignmentMarks(Size(version), AlignPositions(version)[i], AlignPositions(version)[j], n),
      Region(version))
  {
    hide Region, NumAlign, AlignPositions, AlignmentRow;
    AlignPositionsFit(version, i);
    AlignPositionsFit(version, j);
    if n > 0 {
      AlignmentInRegion(version, i, j, n - 1);
      AlignmentRowInRegion(version, i, j, n - 3, 5);
    }
  }

  lemma {:induction false} AlignmentLineInRegion(version: nat, i: nat, n: nat)
    requires 2 <= version <= 40 && i < NumAlign(version) && n <= NumAlign(version)
    ensures MarksIn(AlignmentLine(version, i, n), Region(version))
  {
    hide Region, NumAlign, AlignPositions, AlignmentMarks;
    if n > 0 {
      AlignmentLineInRegion(version, i, n - 1);
      AlignPositionsFit(version, i);
      AlignPositionsFit(version, n - 1);
      if Drawn(version, i, n - 1) {
        AlignmentInRegion(version, i, n - 1, 5);
      }
    }
  }

  lemma NumAlignPositive(version: nat)
    requires IsVersion(version) && NumAlign(version) > 0
    ensures version >= 2
  {}

  lemma {:induction false} AllAlignmentInRegion(version: nat, n: nat)
    requires IsVersion(version) && n <= NumAlign(version)
    ensures MarksIn(AllAlignmentMarks(version, n), Region(version))
  {
    hide Region, AlignPositions, AlignmentLine, NumAlign;
    if n > 0 {
      NumAlignPositive(version);
      AllAlignmentInRegion(version, n - 1);
      AlignmentLineInRegion(version, n - 1, NumAlign(version));
    }
  }

  lemma MarksInConcat(a: seq<Mark>, b: seq<Mark>, s: set<Cell>)
    requires MarksIn(a, s) && MarksIn(b, s)
    ensures MarksIn(a + b, s)
  {}

  lemma VersionMarksInRegion(version: nat)
    requires IsVersion(version)
    ensures MarksIn(VersionMarks(version), Region(version))
  {
    hide Region, VersionCells, VersionBits;
    if version >= 7 {
      VersionInRegion(version, VersionBits(version), 18);
    }
  }

  lemma FunctionMarksInRegion(version: nat, ecl: Ecc)
    requires IsVersion(version)
    ensures MarksIn(FunctionMarks(version, ecl), Region(version))
  {
    hide Region, TimingMarks, FinderMarks, AllAlignmentMarks, FormatMarks, VersionMarks, MarksIn, FormatBits, NumAlign;
    var size, r := Size(version), Region(version);
    var timing, format, ver := TimingMarks(size, size), FormatMarks(size, FormatBits(ecl, 0)), VersionMarks(version);
    var f1, f2, f3 := FinderMarks(size, 3, 3, 9), FinderMarks(size, size - 4, 3, 9), FinderMarks(size, 3, size - 4, 9);
    var align := AllAlignmentMarks(version, NumAlign(version));
    TimingInRegion(version, size);
    FinderInRegion(version, 3, 3, 0, 9);
    FinderInRegion(version, size - 4, 3, 1, 9);
    FinderInRegion(version, 3, size - 4, 2, 9);
    AllAlignmentInRegion(version, NumAlign(version));
    FormatInRegion(version, FormatBits(ecl, 0));
    VersionMarksInRegion(version);
    MarksInConcat(timing, f1, r);
    MarksInConcat(timing + f1, f2, r);
    MarksInConcat(timing + f1 + f2, f3, r);
    MarksInConcat(timing + f1 + f2 + f3, align, r);
    MarksInConcat(timing + f1 + f2 + f3 + align, format, r);
    MarksInConcat(timing + f1 + f2 + f3 + align + format, ver, r);
  }

  // ---------- Every cell of the region is drawn ----------

  lemma MarkedOne(c: Cell, dark: bool)
    ensures Marked([Mark(c, dark)], c)
  {
    assert [Mark(c, dark)][0].cell == c;
  }

  lemma {:induction false} TimingDrawn(size: nat, n: nat, i: nat)
    requires i < n <= size && size > 6
    ensures Marked(TimingMarks(size, n), Cell(6, i)) && Marked(TimingMarks(size, n), Cell(i, 6))
  {
    hide Marked;
    var before, dark := TimingMarks(size, n - 1), (n - 1) % 2 == 0;
    var column, row := [Mark(Cell(6, n - 1), dark)], [Mark(Cell(n - 1, 6), dark)];
    if i < n - 1 {
      TimingDrawn(size, n - 1, i);
    }
    MarkedOne(Cell(6, n - 1), dark);
    MarkedOne(Cell(n - 1, 6), dark);
    MarkedConcat(before, column, Cell(6, i));
    MarkedConcat(before, column, Cell(i, 6));
    MarkedConcat(before + column, row, Cell(6, i));
    MarkedConcat(before + column, row, Cell(i, 6));
  }

  lemma {:induction false} FinderRowDrawn(size: nat, x: int, y: int, dx: int, dy: int, n: nat)
    requires -4 <= dx < n - 4 && 0 <= x + dx < size && 0 <= y + dy < size
    ensures Marked(FinderRow(size, x, y, dy, n), Cell(x + dx, y + dy))
  {
    hide Marked;
    var c, before := Cell(x + dx, y + dy), FinderRow(size, x, y, dy, n - 1);
    if dx < n - 5 {
      FinderRowDrawn(size, x, y, dx, dy, n - 1);
      MarkedConcat(before, FinderRow(size, x, y, dy, n)[|before|..], c);
      assert FinderRow(size, x, y, dy, n) == before + FinderRow(size, x, y, dy, n)[|before|..];
    } else {
      var dist := Max(Abs(dx), Abs(dy));
      var mark := Mark(c, dist != 2 && dist != 4);
      MarkedOne(c, mark.dark);
      MarkedConcat(before, [mark], c);
    }
  }

  lemma {:induction false} FinderDrawn(size: nat, x: int, y: int, dx: int, dy: int, n: nat)
    requires -4 <= dx <= 4 && -4 <= dy < n - 4 && 0 <= x + dx < size && 0 <= y + dy < size
    ensures Marked(FinderMarks(size, x, y, n), Cell(x + dx, y + dy))
  {
    hide Marked, FinderRow;
    var c := Cell(x + dx, y + dy);
    if dy < n - 5 {
      FinderDrawn(size, x, y, dx, dy, n - 1);
    } else {
      FinderRowDrawn(size, x, y, dx, dy, 9);
    }
    MarkedConcat(FinderMarks(size, x, y, n - 1), FinderRow(size, x, y, n - 5, 9), c);
  }

  lemma {:induction false} AlignmentRowDrawn(size: nat, x: int, y: int, dx: int, dy: int, n: nat)
    requires AlignmentFits(size, x, y) && -2 <= dy <= 2 && -2 <= dx < n - 2 && n <= 5
    ensures Marked(AlignmentRow(size, x, y, dy, n), Cell(x + dx, y + dy))
  {
    hide Marked;
    var c := Cell(x + dx, y + dy);
    var dark := Max(Abs(n - 3), Abs(dy)) != 1;
    if dx < n - 3 {
      AlignmentRowDrawn(size, x, y, dx, dy, n - 1);
    }
    MarkedOne(Cell(x + n - 3, y + dy), dark);
    MarkedConcat(AlignmentRow(size, x, y, dy, n - 1), [Mark(Cell(x + n - 3, y + dy), dark)], c);
  }

  lemma {:induction false} AlignmentDrawn(size: nat, x: int, y: int, dx: int, dy: int, n: nat)
    requires AlignmentFits(size, x, y) && -2 <= dx <= 2 && -2 <= dy < n - 2 && n <= 5
    ensures Marked(AlignmentMarks(size, x, y, n), Cell(x + dx, y + dy))
  {
    hide Marked, AlignmentRow;
    var c := Cell(x + dx, y + dy);
    if dy < n - 3 {
      AlignmentDrawn(size, x, y, dx, dy, n - 1);
    } else {
      AlignmentRowDrawn(size, x, y, dx, dy, 5);
    }
    MarkedConcat(AlignmentMarks(size, x, y, n - 1), AlignmentRow(size, x, y, n - 3, 5), c);
  }

  lemma {:induction false} AlignmentLineDrawn(version: nat, i: nat, j: nat, n: nat, c: Cell)
    requires Drawn(version, i, j) && j < n <= NumAlign(version) && OnAlignment(version, i, j, c)
    ensures Marked(AlignmentLine(version, i, n), c)
  {
    hide NumAlign, AlignPositions, AlignmentMarks, Marked;
    var p := AlignPositions(version);
    AlignPositionsFit(version, i);
    AlignPositionsFit(version, n - 1);
    var before := AlignmentLine(version, i, n - 1);
    if j < n - 1 {
      AlignmentLineDrawn(version, i, j, n - 1, c);
      MarkedConcat(before, AlignmentLine(version, i, n)[|before|..], c);
      assert AlignmentLine(version, i, n) == before + AlignmentLine(version, i, n)[|before|..];
    } else {
      AlignmentDrawn(Size(version), p[i], p[j], c.x - p[i], c.y - p[j], 5);
      MarkedConcat(before, AlignmentMarks(Size(version), p[i], p[j], 5), c);
    }
  }

  lemma {:induction false} AllAlignmentDrawn(version: nat, i: nat, j: nat, n: nat, c: Cell)
    requires Drawn(version, i, j) && i < n <= NumAlign(version) && OnAlignment(version, i, j, c)
    ensures Marked(AllAlignmentMarks(version, n), c)
  {
    hide NumAlign, AlignPositions, AlignmentLine, Marked, OnAlignment;
    if i < n - 1 {
      AllAlignmentDrawn(version, i, j, n - 1, c);
    } else {
      AlignmentLineDrawn(version, i, j, NumAlign(version), c);
    }
    MarkedConcat(AllAlignmentMarks(version, n - 1), AlignmentLine(version, n - 1, NumAlign(version)), c);
  }

  lemma {:induction false} VersionDrawn(size: nat, bits: bv32, n: nat, i: nat)
    requires size >= 21 && i < n <= 18
    ensures Marked(VersionCells(size, bits, n), Cell(size - 11 + i % 3, i / 3))
    ensures Marked(VersionCells(size, bits, n), Cell(i / 3, size - 11 + i % 3))
  {
    hide Marked, GetBit;
    var k := n - 1;
    var a, b := size - 11 + k % 3, k / 3;
    var c, d := Cell(size - 11 + i % 3, i / 3), Cell(i / 3, size - 11 + i % 3);
    var before, first, second := VersionCells(size, bits, k), [Mark(Cell(a, b), GetBit(bits, k))],
        [Mark(Cell(b, a), GetBit(bits, k))];
    if i < k {
      VersionDrawn(size, bits, k, i);
    }
    MarkedOne(Cell(a, b), GetBit(bits, k));
    MarkedOne(Cell(b, a), GetBit(bits, k));
    MarkedConcat(before, first, c);
    MarkedConcat(before, first, d);
    MarkedConcat(before + first, second, c);
    MarkedConcat(before + first, second, d);
  }

  lemma FormatDrawn(size: nat, bits: bv32, c: Cell)
    requires size >= 21
    requires || (c.x == 8 && (c.y < 6 || c.y == 7 || c.y == 8)) || (c.y == 8 && (c.x < 6 || c.x == 7))
             || (c.y == 8 && size - 8 <= c.x < size) || (c.x == 8 && size - 8 <= c.y < size)
    ensures Marked(FormatMarks(size, bits), c)
  {
    hide GetBit;
    var first, second := FirstCopy(size, bits), SecondCopy(size, bits);
    if c.x >= size - 8 {
      assert second[size - 1 - c.x].cell == c;
    } else if c.y >= size - 8 {
      assert second[if c.y == size - 8 then 15 else c.y - size + 15].cell == c;
    } else {
      assert first[if c.x == 8 then (if c.y < 6 then c.y else c.y - 1) else if c.x == 7 then 8 else 14 - c.x].cell == c;
    }
    MarkedConcat(first, second, c);
  }

  lemma MarkedInAll(version: nat, ecl: Ecc, c: Cell)
    requires IsVersion(version)
    requires var size := Size(version);
      || Marked(TimingMarks(size, size), c) || Marked(FinderMarks(size, 3, 3, 9), c)
      || Marked(FinderMarks(size, size - 4, 3, 9), c) || Marked(FinderMarks(size, 3, size - 4, 9), c)
      || Marked(AllAlignmentMarks(version, NumAlign(version)), c)
      || Marked(FormatMarks(size, FormatBits(ecl, 0)), c) || Marked(VersionMarks(version), c)
    ensures Marked(FunctionMarks(version, ecl), c)
  {
    hide TimingMarks, FinderMarks, AllAlignmentMarks, FormatMarks, VersionMarks, Marked, FormatBits, NumAlign;
    var size := Size(version);
    var timing, format, ver := TimingMarks(size, size), FormatMarks(size, FormatBits(ecl, 0)), VersionMarks(version);
    var f1, f2, f3 := FinderMarks(size, 3, 3, 9), FinderMarks(size, size - 4, 3, 9), FinderMarks(size, 3, size - 4, 9);
    var align := AllAlignmentMarks(version, NumAlign(version));
    MarkedConcat(timing, f1, c);
    MarkedConcat(timing + f1, f2, c);
    MarkedConcat(timing + f1 + f2, f3, c);
    MarkedConcat(timing + f1 + f2 + f3, align, c);
    MarkedConcat(timing + f1 + f2 + f3 + align, format, c);
    MarkedConcat(timing + f1 + f2 + f3 + align + format, ver, c);
  }

  lemma FinderCornerDrawn(version: nat, ecl: Ecc, k: nat, c: Cell)
    requires IsVersion(version) && k < 3 && c in CornerRects(Size(version))[k]
    ensures Marked(FunctionMarks(version, ecl), c)
  {
    hide Marked, TimingMarks, FinderMarks, FormatMarks, FunctionMarks, AllAlignmentMarks, VersionMarks, FormatBits,
      NumAlign, Rect;
    var size := Size(version);
    var x, y := if k == 1 then size - 4 else 3, if k == 2 then size - 4 else 3;
    assert -4 <= c.x - x <= 4 && -4 <= c.y - y <= 4 && c.x < size && c.y < size;
    hide CornerRects;
    FinderDrawn(size, x, y, c.x - x, c.y - y, 9);
    MarkedInAll(version, ecl, c);
  }

  lemma TimingLineDrawn(version: nat, ecl: Ecc, k: nat, c: Cell)
    requires IsVersion(version) && 3 <= k < 5 && c in CornerRects(Size(version))[k]
    ensures Marked(FunctionMarks(version, ecl), c)
  {
    hide Marked, TimingMarks, FinderMarks, FormatMarks, FunctionMarks, AllAlignmentMarks, VersionMarks, FormatBits,
      NumAlign, Rect;
    var size := Size(version);
    assert c.x < size && c.y < size && if k == 3 then c.y == 6 else c.x == 6;
    hide CornerRects;
    TimingDrawn(size, size, if k == 3 then c.x else c.y);
    MarkedInAll(version, ecl, c);
  }

  lemma FormatCornerDrawn(version: nat, ecl: Ecc, k: nat, c: Cell)
    requires IsVersion(version) && 5 <= k < 11 && c in CornerRects(Size(version))[k]
    ensures Marked(FunctionMarks(version, ecl), c)
  {
    hide Marked, TimingMarks, FinderMarks, FormatMarks, FunctionMarks, AllAlignmentMarks, VersionMarks, FormatBits,
      NumAlign, Rect;
    FormatDrawn(Size(version), FormatBits(ecl, 0), c);
    hide CornerRects;
    MarkedInAll(version, ecl, c);
  }

  lemma CornerDrawn(version: nat, ecl: Ecc, k: nat, c: Cell)
    requires IsVersion(version) && k < 11 && c in CornerRects(Size(version))[k]
    ensures Marked(FunctionMarks(version, ecl), c)
  {
    hide Marked, FunctionMarks, CornerRects;
    if k < 3 {
      FinderCornerDrawn(version, ecl, k, c);
    } else if k < 5 {
      TimingLineDrawn(version, ecl, k, c);
    } else {
      FormatCornerDrawn(version, ecl, k, c);
    }
  }

  lemma AlignDrawn(version: nat, ecl: Ecc, i: nat, j: nat, c: Cell)
    requires Drawn(version, i, j) && OnAlignment(version, i, j, c)
    ensures Marked(FunctionMarks(version, ecl), c)
  {
    hide Marked, FunctionMarks, NumAlign, OnAlignment, AllAlignmentMarks;
    AllAlignmentDrawn(version, i, j, NumAlign(version), c);
    MarkedInAll(version, ecl, c);
  }

  lemma EdgeDrawn(version: nat, ecl: Ecc, k: nat, c: Cell)
    requires 2 <= version <= 40 && 1 <= k < NumAlign(version) - 1 && OnEdge(version, k, c)
    ensures Marked(FunctionMarks(version, ecl), c)
  {
    assert AlignPositions(version)[0] == 6;
    hide Marked, FunctionMarks, NumAlign, AlignPositions;
    if OnAlignment(version, 0, k, c) {
      AlignDrawn(version, ecl, 0, k, c);
    } else {
      AlignDrawn(version, ecl, k, 0, c);
    }
  }

  lemma VersionRegionDrawn(version: nat, ecl: Ecc, c: Cell)
    requires IsVersion(version) && c in VersionRegion(version)
    ensures Marked(FunctionMarks(version, ecl), c)
  {
    hide Marked, FunctionMarks, TimingMarks, FinderMarks, FormatMarks, AllAlignmentMarks, FormatBits, NumAlign,
      VersionRects, VersionCells, VersionBits;
    var size := Size(version);
    VersionRectsCell(size, c);
    var i := if c.y < 6 then 3 * c.y + c.x - size + 11 else 3 * c.x + c.y - size + 11;
    VersionDrawn(size, VersionBits(version), 18, i);
    MarkedInAll(version, ecl, c);
  }

  lemma AlignRegionDrawn(version: nat, ecl: Ecc, c: Cell)
    requires IsVersion(version) && c in AlignRegion(version)
    ensures Marked(FunctionMarks(version, ecl), c)
  {
    hide Marked, FunctionMarks, NumAlign, OnAlignment, InnerSquares, EdgeSquares, OnEdge, Size;
    if c in InnerSquares(version) {
      InnerSquaresCell(version, c);
      var i, j :| 1 <= i < NumAlign(version) && 1 <= j < NumAlign(version) && OnAlignment(version, i, j, c);
      AlignDrawn(version, ecl, i, j, c);
    } else {
      EdgeSquaresCell(version, c);
      var k :| 1 <= k < NumAlign(version) - 1 && OnEdge(version, k, c);
      EdgeDrawn(version, ecl, k, c);
    }
  }

  lemma RegionDrawn(version: nat, ecl: Ecc, c: Cell)
    requires IsVersion(version) && c in Region(version)
    ensures Marked(FunctionMarks(version, ecl), c)
  {
    hide Marked, FunctionMarks, CornerRects, Union, AlignRegion, VersionRegion;
    if c in AlignRegion(version) {
      AlignRegionDrawn(version, ecl, c);
    } else if c in VersionRegion(version) {
      VersionRegionDrawn(version, ecl, c);
    } else {
      CornerCell(Size(version), c);
      var k :| 0 <= k < 11 && c in CornerRects(Size(version))[k];
      CornerDrawn(version, ecl, k, c);
    }
  }

  // ---------- The free cells ----------

  lemma {:induction false} ListIsSet(cells: seq<Cell>)
    requires NoRepeats(cells)
    ensures |set c | c in cells| == |cells|
  {
    if cells != [] {
      var n := |cells| - 1;
      ListIsSet(cells[..n]);
      assert (set c | c in cells) == (set c | c in cells[..n]) + {cells[n]};
    }
  }

  /** The free cells are the grid without the region. */
  lemma FreeIsOutside(version: nat, ecl: Ecc, c: Cell)
    requires IsVersion(version)
    ensures Inside(c, Size(version)) && c !in Region(version)
       <==> c in FreeCells(Scan(Size(version)), FunctionGrid(version, ecl))
    ensures c in Region(version) ==> Inside(c, Size(version))
  {
    hide Scan, FunctionMarks, Region, Reserve, FreeCells;
    var size, marks := Size(version), FunctionMarks(version, ecl);
    FunctionMarksInRegion(version, ecl);
    ScanVisitsOnce(size);
    if c in Region(version) {
      RegionDrawn(version, ecl, c);
    } else {
      assert !Marked(marks, c);
    }
    if Inside(c, size) {
      ReserveIsMarked(Blank(size), marks, c);
      if c.x == 6 {
        ColumnSixInRegion(version, c);
      }
    }
  }

  lemma ColumnSixInRegion(version: nat, c: Cell)
    requires IsVersion(version) && Inside(c, Size(version)) && c.x == 6
    ensures c in Region(version)
  {
    hide Region, Rect;
    InCorner(version, c, if c.y < 8 then 0 else if c.y < Size(version) - 8 then 4 else 2);
  }

  lemma GridSplits(size: nat, a: set<Cell>, b: set<Cell>)
    requires forall c :: Inside(c, size) <==> c in a || c in b
    requires forall c :: !(c in a && c in b)
    ensures |a| + |b| == size * size
  {
    NoneShared(a, b);
    assert Rect(0, 0, size, size) == a + b;
  }

  /** The number of data modules is exact. */
  lemma FreeCellsCount(version: nat, ecl: Ecc)
    requires IsVersion(version)
    ensures |FreeCells(Scan(Size(version)), FunctionGrid(version, ecl))| == NumRawDataModules(version)
  {
    hide Scan, FunctionMarks, Region, Reserve, FreeCells, Rect, NumRawDataModules;
    var size := Size(version);
    var free := FreeCells(Scan(size), FunctionGrid(version, ecl));
    ScanVisitsOnce(size);
    FreeNoRepeats(Scan(size), FunctionGrid(version, ecl));
    ListIsSet(free);
    forall c
      ensures Inside(c, size) <==> c in free || c in Region(version)
      ensures !(c in free && c in Region(version))
    {
      FreeIsOutside(version, ecl, c);
    }
    GridSplits(size, (set c | c in free), Region(version));
    RegionSize(version);
  }

  lemma RawModules(version: nat)
    requires IsVersion(version)
    ensures var n := version / 7 + 2;
      NumRawDataModules(version) == 8 * (2 * (version * version) + 16 * version + 8)
        - (if version == 1 then 0 else 25 * (n * n) - 10 * n - 55) - (if version < 7 then 0 else 36)
  {
    assert (16 * version + 128) * version == 16 * (version * version) + 128 * version;
    var n := version / 7 + 2;
    assert (25 * n - 10) * n == 25 * (n * n) - 10 * n;
  }

  lemma ModEight(a: int, b: int)
    ensures (8 * a - b) % 8 == (-b) % 8
  {}

  lemma SquareBetween(v: nat, low: nat, high: nat)
    requires low <= v <= high
    ensures low * v <= v * v <= high * v
  {}

  /** The number of data modules grows from that of version 1 to that of version 40. */
  lemma RawModulesRange(version: nat)
    requires IsVersion(version)
    ensures 208 <= NumRawDataModules(version) <= 29648
  {
    hide NumRawDataModules;
    RawModules(version);
    var n := version / 7 + 2;
    assert n == 2 || n == 3 || n == 4 || n == 5 || n == 6 || n == 7;
    if version < 7 {
      SquareBetween(version, 1, 6);
    } else if version < 35 {
      SquareBetween(version, 7, 34);
    } else {
      SquareBetween(version, 35, 40);
    }
  }

  /** The bits that no codeword fills, version by version. */
  lemma RemainderBits(version: nat)
    requires IsVersion(version)
    ensures NumRawDataModules(version) % 8 == if version == 1 then 0
                                              else if version < 7 then 7
                                              else if version < 14 then 0
                                              else if version < 21 then 3
                                              else if version < 28 then 4
                                              else if version < 35 then 3
                                              else 0
  {
    hide NumRawDataModules;
    RawModules(version);
    var n := version / 7 + 2;
    var less := (if version == 1 then 0 else 25 * (n * n) - 10 * n - 55) + (if version < 7 then 0 else 36);
    ModEight(2 * (version * version) + 16 * version + 8, less);
    assert n == 2 || n == 3 || n == 4 || n == 5 || n == 6 || n == 7;
  }
}
