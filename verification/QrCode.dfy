/** The QR Code object: a grid that is filled in place with function modules, codewords and a mask. */
module QrCode {
  import opened Arithmetic
  import opened Wrappers
  import opened QrGrid
  import opened QrScan
  import opened QrPatterns
  import opened QrCapacity
  import opened QrBits
  import opened QrMask
  import opened QrPenalty
  import opened QrTables
  import opened QrBlocks

  lemma DrawOne(g: Grid, f: Grid, marks: seq<Mark>, m: Mark)
    requires Square(g, |g|) && Square(f, |g|) && MarksInside(marks, |g|) && Inside(m.cell, |g|)
    ensures MarksInside(marks + [m], |g|)
    ensures DrawMarks(g, marks + [m]) == Put(DrawMarks(g, marks), m.cell, m.dark)
    ensures Reserve(f, marks + [m]) == Put(Reserve(f, marks), m.cell, true)
  {
    assert (marks + [m])[..|marks|] == marks;
  }

  class QrCode {
    var version: nat
    var size: nat
    var ecl: Ecc
    var mask: int
    var modules: Grid
    var isFunction: Grid

    ghost predicate Valid()
      reads this
    {
      IsVersion(version) && size == Size(version) && Square(modules, size) && Square(isFunction, size)
    }

    /** A blank grid of the given version. */
    constructor (version: nat, ecl: Ecc)
      requires IsVersion(version)
      ensures Valid() && this.version == version && this.ecl == ecl && mask == -1
      ensures modules == isFunction == Blank(Size(version))
    {
      this.version, this.ecl, this.mask := version, ecl, -1;
      size := Size(version);
      modules, isFunction := Blank(Size(version)), Blank(Size(version));
    }

    method SetFunctionModule(x: int, y: int, isDark: bool)
      requires Valid() && 0 <= x < size && 0 <= y < size
      modifies this`modules, this`isFunction
      ensures Valid()
      ensures modules == Put(old(modules), Cell(x, y), isDark) && isFunction == Put(old(isFunction), Cell(x, y), true)
    {
      modules := modules[y := modules[y][x := isDark]];
      isFunction := isFunction[y := isFunction[y][x := true]];
    }

    method DrawTimingPatterns()
      requires Valid()
      modifies this`modules, this`isFunction
      ensures Valid()
      ensures modules == DrawMarks(old(modules), TimingMarks(size, size))
      ensures isFunction == Reserve(old(isFunction), TimingMarks(size, size))
    {
      hide Put, DrawMarks, Reserve;
      assert DrawMarks(modules, []) == modules
          && Reserve(isFunction, []) == isFunction by { DrawNothing(modules, isFunction); }
      for i := 0 to size
        invariant Valid()
        invariant modules == DrawMarks(old(modules), TimingMarks(size, i))
        invariant isFunction == Reserve(old(isFunction), TimingMarks(size, i))
      {
        ghost var m := TimingMarks(size, i);
        DrawOne(old(modules), old(isFunction), m, Mark(Cell(6, i), i % 2 == 0));
        SetFunctionModule(6, i, i % 2 == 0);
        DrawOne(old(modules), old(isFunction), m + [Mark(Cell(6, i), i % 2 == 0)], Mark(Cell(i, 6), i % 2 == 0));
        SetFunctionModule(i, 6, i % 2 == 0);
      }
    }

    method DrawFinderPattern(x: int, y: int)
      requires Valid()
      modifies this`modules, this`isFunction
      ensures Valid()
      ensures modules == DrawMarks(old(modules), FinderMarks(size, x, y, 9))
      ensures isFunction == Reserve(old(isFunction), FinderMarks(size, x, y, 9))
    {
      hide Put, DrawMarks, Reserve;
      DrawNothing(modules, isFunction);
      for dy := -4 to 5
        invariant Valid()
        invariant modules == DrawMarks(old(modules), FinderMarks(size, x, y, dy + 4))
        invariant isFunction == Reserve(old(isFunction), FinderMarks(size, x, y, dy + 4))
      {
        ghost var rows := FinderMarks(size, x, y, dy + 4);
        assert rows + [] == rows;
        for dx := -4 to 5
          invariant Valid()
          invariant modules == DrawMarks(old(modules), rows + FinderRow(size, x, y, dy, dx + 4))
          invariant isFunction == Reserve(old(isFunction), rows + FinderRow(size, x, y, dy, dx + 4))
        {
          var dist := Max(Abs(dx), Abs(dy));
          var xx, yy := x + dx, y + dy;
          ghost var row := FinderRow(size, x, y, dy, dx + 4);
          if 0 <= xx < size && 0 <= yy < size {
            DrawOne(old(modules), old(isFunction), rows + row, Mark(Cell(xx, yy), dist != 2 && dist != 4));
            assert rows + row + [Mark(Cell(xx, yy), dist != 2 && dist != 4)]
                == rows + FinderRow(size, x, y, dy, dx + 5);
            SetFunctionModule(xx, yy, dist != 2 && dist != 4);
          } else {
            assert row + [] == row;
          }
        }
      }
    }

    method DrawAlignmentPattern(x: int, y: int)
      requires Valid() && AlignmentFits(size, x, y)
      modifies this`modules, this`isFunction
      ensures Valid()
      ensures modules == DrawMarks(old(modules), AlignmentMarks(size, x, y, 5))
      ensures isFunction == Reserve(old(isFunction), AlignmentMarks(size, x, y, 5))
    {
      hide Put, DrawMarks, Reserve;
      DrawNothing(modules, isFunction);
      for dy := -2 to 3
        invariant Valid()
        invariant modules == DrawMarks(old(modules), AlignmentMarks(size, x, y, dy + 2))
        invariant isFunction == Reserve(old(isFunction), AlignmentMarks(size, x, y, dy + 2))
      {
        ghost var rows := AlignmentMarks(size, x, y, dy + 2);
        assert rows + [] == rows;
        for dx := -2 to 3
          invariant Valid()
          invariant modules == DrawMarks(old(modules), rows + AlignmentRow(size, x, y, dy, dx + 2))
          invariant isFunction == Reserve(old(isFunction), rows + AlignmentRow(size, x, y, dy, dx + 2))
        {
          var isDark := Max(Abs(dx), Abs(dy)) != 1;
          ghost var row := AlignmentRow(size, x, y, dy, dx + 2);
          DrawOne(old(modules), old(isFunction), rows + row, Mark(Cell(x + dx, y + dy), isDark));
          assert rows + row + [Mark(Cell(x + dx, y + dy), isDark)] == rows + AlignmentRow(size, x, y, dy, dx + 3);
          SetFunctionModule(x + dx, y + dy, isDark);
        }
      }
    }

    /** The alignment centers of this version, found by counting back from the far edge. */
    method GetAlignmentPatternPositions() returns (result: seq<int>)
      requires Valid()
      ensures result == AlignPositions(version)
    {
      if version == 1 {
        return [];
      }
      var numAlign := version / 7 + 2;
      var step := if version == 32 then 26 else (version * 4 + numAlign * 2 + 1) / (numAlign * 2 - 2) * 2;
      result := [];
      var pos := size - 7;
      for i := 0 to numAlign - 1
        invariant pos == size - 7 - i * step && |result| == i
        invariant forall k :: 0 <= k < i ==> result[k] == AlignPositions(version)[numAlign - i + k]
      {
        PositionFromEnd(version, i);
        MulStep(i, step);
        result := [pos] + result;
        pos := pos - step;
      }
      result := [6] + result;
    }

    method DrawAlignmentPatterns()
      requires Valid()
      modifies this`modules, this`isFunction
      ensures Valid()
      ensures modules == DrawMarks(old(modules), AllAlignmentMarks(version, NumAlign(version)))
      ensures isFunction == Reserve(old(isFunction), AllAlignmentMarks(version, NumAlign(version)))
    {
      hide Put, DrawMarks, Reserve, AlignPositions, NumAlign, AlignmentMarks, Size;
      var alignPatPos := GetAlignmentPatternPositions();
      var numAlign := |alignPatPos|;
      DrawNothing(modules, isFunction);
      for i := 0 to numAlign
        invariant Valid()
        invariant modules == DrawMarks(old(modules), AllAlignmentMarks(version, i))
        invariant isFunction == Reserve(old(isFunction), AllAlignmentMarks(version, i))
      {
        ghost var lines := AllAlignmentMarks(version, i);
        assert lines + [] == lines;
        for j := 0 to numAlign
          invariant Valid()
          invariant modules == DrawMarks(old(modules), lines + AlignmentLine(version, i, j))
          invariant isFunction == Reserve(old(isFunction), lines + AlignmentLine(version, i, j))
        {
          ghost var line := AlignmentLine(version, i, j);
          AlignPositionsFit(version, i);
          AlignPositionsFit(version, j);
          if !((i == 0 && j == 0) || (i == 0 && j == numAlign - 1) || (i == numAlign - 1 && j == 0)) {
            ghost var square := AlignmentMarks(size, alignPatPos[i], alignPatPos[j], 5);
            DrawConcat(old(modules), lines + line, square);
            DrawConcat(old(isFunction), lines + line, square);
            DrawAlignmentPattern(alignPatPos[i], alignPatPos[j]);
            assert lines + line + square == lines + (line + square);
          } else {
            assert line + [] == line;
          }
        }
      }
    }

    /** Draws mark k of a list after the marks before it. */
    method DrawListed(ghost marks: seq<Mark>, ghost k: nat, x: int, y: int, isDark: bool, ghost before: Grid,
        ghost beforeFunction: Grid)
      requires Valid() && MarksInside(marks, size) && k < |marks|
      requires 0 <= x < size && 0 <= y < size && marks[k] == Mark(Cell(x, y), isDark)
      requires Square(before, size) && Square(beforeFunction, size)
      requires modules == DrawMarks(before, marks[..k]) && isFunction == Reserve(beforeFunction, marks[..k])
      modifies this`modules, this`isFunction
      ensures Valid()
      ensures modules == DrawMarks(before, marks[..k + 1]) && isFunction == Reserve(beforeFunction, marks[..k + 1])
    {
      hide Put, DrawMarks, Reserve;
      DrawOne(before, beforeFunction, marks[..k], marks[k]);
      assert marks[..k + 1] == marks[..k] + [marks[k]];
      SetFunctionModule(x, y, isDark);
    }

    method DrawFirstCopy(bits: bv32)
      requires Valid()
      modifies this`modules, this`isFunction
      ensures Valid()
      ensures modules == DrawMarks(old(modules), FirstCopy(size, bits))
      ensures isFunction == Reserve(old(isFunction), FirstCopy(size, bits))
    {
      hide Put, DrawMarks, Reserve, GetBit;
      ghost var m := FirstCopy(size, bits);
      DrawNothing(modules, isFunction);
      assert m[..0] == [];
      for i := 0 to 6
        invariant Valid() && modules == DrawMarks(old(modules), m[..i])
          && isFunction == Reserve(old(isFunction), m[..i])
      {
        DrawListed(m, i, 8, i, GetBit(bits, i), old(modules), old(isFunction));
      }
      DrawListed(m, 6, 8, 7, GetBit(bits, 6), old(modules), old(isFunction));
      DrawListed(m, 7, 8, 8, GetBit(bits, 7), old(modules), old(isFunction));
      DrawListed(m, 8, 7, 8, GetBit(bits, 8), old(modules), old(isFunction));
      for i := 9 to 15
        invariant Valid() && modules == DrawMarks(old(modules), m[..i])
          && isFunction == Reserve(old(isFunction), m[..i])
      {
        DrawListed(m, i, 14 - i, 8, GetBit(bits, i), old(modules), old(isFunction));
      }
      assert m[..15] == m;
    }

    method DrawSecondCopy(bits: bv32)
      requires Valid()
      modifies this`modules, this`isFunction
      ensures Valid()
      ensures modules == DrawMarks(old(modules), SecondCopy(size, bits))
      ensures isFunction == Reserve(old(isFunction), SecondCopy(size, bits))
    {
      hide Put, DrawMarks, Reserve, GetBit;
      ghost var m := SecondCopy(size, bits);
      DrawNothing(modules, isFunction);
      assert m[..0] == [];
      for i := 0 to 8
        invariant Valid() && modules == DrawMarks(old(modules), m[..i])
          && isFunction == Reserve(old(isFunction), m[..i])
      {
        DrawListed(m, i, size - 1 - i, 8, GetBit(bits, i), old(modules), old(isFunction));
      }
      for i := 8 to 15
        invariant Valid() && modules == DrawMarks(old(modules), m[..i])
          && isFunction == Reserve(old(isFunction), m[..i])
      {
        DrawListed(m, i, 8, size - 15 + i, GetBit(bits, i), old(modules), old(isFunction));
      }
      DrawListed(m, 15, 8, size - 8, true, old(modules), old(isFunction));
      assert m[..16] == m;
    }

    /** Computes the format bits and draws both copies. */
    method DrawFormatBits(msk: nat)
      requires Valid() && msk < 8
      modifies this`modules, this`isFunction
      ensures Valid()
      ensures modules == DrawMarks(old(modules), FormatMarks(size, FormatBits(ecl, msk as bv32)))
      ensures isFunction == Reserve(old(isFunction), FormatMarks(size, FormatBits(ecl, msk as bv32)))
    {
      hide Put, DrawMarks, Reserve, FirstCopy, SecondCopy, FormatBits;
      var bits := ComputeFormatBits(ecl, msk as bv32);
      DrawFirstCopy(bits);
      DrawBoth(old(modules), old(isFunction), FirstCopy(size, bits), SecondCopy(size, bits));
      DrawSecondCopy(bits);
    }

    /** Draws both copies of the version bits, from version 7 on. */
    method DrawVersion()
      requires Valid()
      modifies this`modules, this`isFunction
      ensures Valid()
      ensures modules == DrawMarks(old(modules), VersionMarks(version))
      ensures isFunction == Reserve(old(isFunction), VersionMarks(version))
    {
      hide Put, DrawMarks, Reserve, GetBit, VersionBits;
      DrawNothing(modules, isFunction);
      if version < 7 {
        return;
      }
      var bits := ComputeVersionBits(version);
      for i := 0 to 18
        invariant Valid()
        invariant modules == DrawMarks(old(modules), VersionCells(size, bits, i))
        invariant isFunction == Reserve(old(isFunction), VersionCells(size, bits, i))
      {
        var bit := GetBit(bits, i);
        var a, b := size - 11 + i % 3, i / 3;
        ghost var m := VersionCells(size, bits, i);
        DrawOne(old(modules), old(isFunction), m, Mark(Cell(a, b), bit));
        SetFunctionModule(a, b, bit);
        DrawOne(old(modules), old(isFunction), m + [Mark(Cell(a, b), bit)], Mark(Cell(b, a), bit));
        SetFunctionModule(b, a, bit);
      }
    }

    /** Draws and reserves everything that does not depend on data. */
    method DrawFunctionPatterns()
      requires Valid()
      modifies this`modules, this`isFunction
      ensures Valid()
      ensures modules == DrawMarks(old(modules), FunctionMarks(version, ecl))
      ensures isFunction == Reserve(old(isFunction), FunctionMarks(version, ecl))
    {
      hide Put, DrawMarks, Reserve, TimingMarks, FinderMarks, AllAlignmentMarks, FormatMarks, VersionMarks, NumAlign,
        FormatBits;
      ghost var g, f := modules, isFunction;
      ghost var timing, format, ver := TimingMarks(size, size), FormatMarks(size, FormatBits(ecl, 0)),
          VersionMarks(version);
      ghost var f1, f2, f3 := FinderMarks(size, 3, 3, 9), FinderMarks(size, size - 4, 3, 9),
          FinderMarks(size, 3, size - 4, 9);
      ghost var align := AllAlignmentMarks(version, NumAlign(version));
      DrawTimingPatterns();
      DrawFinderPattern(3, 3);
      DrawBoth(g, f, timing, f1);
      DrawFinderPattern(size - 4, 3);
      DrawBoth(g, f, timing + f1, f2);
      DrawFinderPattern(3, size - 4);
      DrawBoth(g, f, timing + f1 + f2, f3);
      DrawAlignmentPatterns();
      DrawBoth(g, f, timing + f1 + f2 + f3, align);
      DrawFormatBits(0);
      DrawBoth(g, f, timing + f1 + f2 + f3 + align, format);
      DrawVersion();
      DrawBoth(g, f, timing + f1 + f2 + f3 + align + format, ver);
    }

    /** Lays the codewords into the free modules in zigzag order; refuses a wrong number of them. */
    method DrawCodewords(data: seq<bv8>) returns (ok: bool)
      requires Valid()
      modifies this`modules
      ensures Valid()
      ensures ok <==> |data| == NumRawDataModules(version) / 8
      ensures modules == if ok then Paint(old(modules), FreeCells(Scan(size), isFunction), CodewordBits(data))
        else old(modules)
    {
      hide Paint, FreeCells, BitOf, NumRawDataModules, PairCells;
      if |data| != NumRawDataModules(version) / 8 {
        return false;
      }
      ghost var bits := CodewordBits(data);
      PaintNothing(modules, isFunction, bits);
      var i := 0;
      var right := size - 1;
      ghost var k := 0;
      while right >= 1
        invariant Valid() && k <= NumPairs(size)
        invariant right == (if size - 1 - 2 * k >= 6 then size - 1 - 2 * k else size - 2 - 2 * k)
        invariant Painted(old(modules), modules, isFunction, ScanCells(size, k), bits, i)
        decreases right
      {
        if right == 6 {
          right := 5;
        }
        assert right == Right(size, k);
        i := DrawColumnPair(data, right, i, old(modules), ScanCells(size, k));
        k := k + 1;
        right := right - 2;
      }
      assert k == NumPairs(size);
      ok := true;
    }

    /** One pair of columns, upward or downward. */
    method DrawColumnPair(data: seq<bv8>, right: int, start: nat, ghost before: Grid, ghost cells: seq<Cell>)
        returns (i: nat)
      requires Valid() && 1 <= right < size && Square(before, size) && AllInside(cells, size)
      requires Painted(before, modules, isFunction, cells, CodewordBits(data), start)
      modifies this`modules
      ensures Valid()
      ensures Painted(before, modules, isFunction, cells + PairCells(size, right, size), CodewordBits(data), i)
    {
      hide BitOf, Painted, Put;
      ghost var bits := CodewordBits(data);
      i := start;
      assert cells + [] == cells;
      for vert := 0 to size
        invariant Valid() && Painted(before, modules, isFunction, cells + PairCells(size, right, vert), bits, i)
      {
        ghost var done := cells + PairCells(size, right, vert);
        assert done + [] == done;
        for j := 0 to 2
          invariant Valid() && Painted(before, modules, isFunction, done + PairStep(size, right, vert, j), bits, i)
        {
          var x := right - j;
          var upward := (right + 1) / 2 % 2 == 0;
          var y := if upward then size - 1 - vert else vert;
          PaintedNext(before, modules, isFunction, done + PairStep(size, right, vert, j), bits, i, Cell(x, y));
          assert done + PairStep(size, right, vert, j) + [Cell(x, y)] == done + PairStep(size, right, vert, j + 1);
          if !isFunction[y][x] && i < |data| * 8 {
            PutIsUpdate(modules, Cell(x, y), bits[i]);
            modules := modules[y := modules[y][x := BitOf(data[i / 8], 7 - i % 8)]];
            i := i + 1;
          }
        }
        assert done + PairStep(size, right, vert, 2) == cells + PairCells(size, right, vert + 1);
      }
    }

    /** Inverts the data modules under a mask pattern; refuses an unknown mask. */
    method ApplyMask(msk: int) returns (ok: bool)
      requires Valid()
      modifies this`modules
      ensures Valid()
      ensures ok <==> 0 <= msk <= 7
      ensures modules == if ok then Masked(old(modules), isFunction, msk) else old(modules)
    {
      if msk < 0 || msk > 7 {
        return false;
      }
      hide Inverts, Masked;
      ghost var goal := Masked(modules, isFunction, msk);
      for y := 0 to size
        invariant Valid()
        invariant forall c: Cell :: Inside(c, size) ==> At(modules, c) == At(if c.y < y then goal else old(modules), c)
      {
        for x := 0 to size
          invariant Valid()
          invariant forall c: Cell :: Inside(c, size) ==>
            At(modules, c) == At(if c.y < y || (c.y == y && c.x < x) then goal else old(modules), c)
        {
          var invert := Inverts(msk, x, y);
          PutIsUpdate(modules, Cell(x, y), modules[y][x] != (invert && !isFunction[y][x]));
          assert At(modules, Cell(x, y)) == At(old(modules), Cell(x, y));
          modules := modules[y := modules[y][x := modules[y][x] != (invert && !isFunction[y][x])]];
        }
      }
      GridEquality(modules, goal);
      ok := true;
    }

    /** Tries all eight masks on the drawn codewords and keeps the first with the least penalty. */
    method ChooseMask(ghost coded: Grid) returns (msk: int)
      requires Valid() && modules == coded && isFunction == FunctionGrid(version, ecl)
      modifies this`modules, this`isFunction
      ensures Valid() && isFunction == old(isFunction)
      ensures modules == Stamped(coded, ecl, 8)
      ensures IsBestMask(coded, isFunction, ecl, msk)
    {
      hide Masked, FunctionGrid, TrialPenalty, Stamped, Trial, FormatMarks, FormatBits, DrawMarks, Reserve;
      msk := -1;
      var minPenalty := LONG_MAX;
      StampedNothing(coded, ecl);
      for i := 0 to 8
        invariant Valid() && isFunction == old(isFunction)
        invariant modules == Stamped(coded, ecl, i)
        invariant msk == -1 <==> i == 0
        invariant msk == -1 ==> minPenalty == LONG_MAX
        invariant msk != -1 ==> 0 <= msk < i && minPenalty == TrialPenalty(coded, isFunction, ecl, msk)
        invariant forall k :: 0 <= k < i ==> minPenalty <= TrialPenalty(coded, isFunction, ecl, k)
        invariant forall k :: 0 <= k < msk ==> minPenalty < TrialPenalty(coded, isFunction, ecl, k)
      {
        TrialFromStamp(version, ecl, coded, i);
        var penalty := TryMask(coded, i);
        if penalty < minPenalty {
          msk := i;
          minPenalty := penalty;
        }
        var ok := ApplyMask(i);
      }
    }

    /** One trial: mask, format bits, score. */
    method TryMask(ghost coded: Grid, i: nat) returns (penalty: int)
      requires Valid() && i < 8 && Square(coded, size) && isFunction == FunctionGrid(version, ecl)
      requires modules == Stamped(coded, ecl, i)
      modifies this`modules, this`isFunction
      ensures Valid() && isFunction == old(isFunction)
      ensures modules == Trial(coded, isFunction, ecl, i)
      ensures penalty == TrialPenalty(coded, isFunction, ecl, i) && penalty < LONG_MAX
    {
      hide Masked, FunctionGrid, PenaltyScore, Stamped, FormatMarks, DrawMarks, Reserve;
      TrialFromStamp(version, ecl, coded, i);
      var ok := ApplyMask(i);
      DrawFormatBits(i);
      penalty := GetPenaltyScore(modules);
      PenaltyBound(modules);
    }
  }

  const LONG_MAX := 0x7FFF_FFFF_FFFF_FFFF

  /** The grid with the codewords drawn and mask k applied, under the format bits that name it. */
  function Trial(coded: Grid, isFunction: Grid, ecl: Ecc, k: nat): (g: Grid)
    requires Square(coded, |coded|) && Square(isFunction, |coded|) && |coded| >= 21 && k < 8
    ensures Square(g, |coded|)
  {
    DrawMarks(Masked(coded, isFunction, k), FormatMarks(|coded|, FormatBits(ecl, k as bv32)))
  }

  function TrialPenalty(coded: Grid, isFunction: Grid, ecl: Ecc, k: nat): int
    requires Square(coded, |coded|) && Square(isFunction, |coded|) && |coded| >= 21 && k < 8
  {
    PenaltyScore(Trial(coded, isFunction, ecl, k))
  }

  /** msk is the lowest-numbered mask of minimal penalty. */
  ghost predicate IsBestMask(coded: Grid, isFunction: Grid, ecl: Ecc, msk: int)
    requires Square(coded, |coded|) && Square(isFunction, |coded|) && |coded| >= 21
  {
    && 0 <= msk < 8
    && (forall k :: 0 <= k < 8 ==> TrialPenalty(coded, isFunction, ecl, msk) <= TrialPenalty(coded, isFunction, ecl, k))
    && (forall k :: 0 <= k < msk ==>
      TrialPenalty(coded, isFunction, ecl, msk) < TrialPenalty(coded, isFunction, ecl, k))
  }

  /** Between two trials: the codewords without mask, and the format bits of the trial before. */
  ghost function Stamped(coded: Grid, ecl: Ecc, i: nat): (g: Grid)
    requires Square(coded, |coded|) && |coded| >= 21 && i <= 8
    ensures Square(g, |coded|)
  {
    if i == 0 then coded else DrawMarks(coded, FormatMarks(|coded|, FormatBits(ecl, (i - 1) as bv32)))
  }

  lemma StampedNothing(coded: Grid, ecl: Ecc)
    requires Square(coded, |coded|) && |coded| >= 21
    ensures Stamped(coded, ecl, 0) == coded
  {}

  /** The part of one vertical step that is done. */
  ghost function PairStep(size: nat, right: nat, vert: nat, j: nat): (cells: seq<Cell>)
    requires 1 <= right < size && vert < size && j <= 2
    ensures AllInside(cells, size)
  {
    [ScanCell(size, right, vert, 0), ScanCell(size, right, vert, 1)][..j]
  }

  /** `now` is `before` with the bits laid into the free ones of the cells visited so far; i bits are used up. */
  ghost predicate Painted(before: Grid, now: Grid, isFunction: Grid, cells: seq<Cell>, bits: seq<bool>, i: nat)
    requires Square(before, |before|) && Square(isFunction, |before|) && AllInside(cells, |before|)
  {
    var free := FreeCells(cells, isFunction);
    now == Paint(before, free, bits) && i == if |free| < |bits| then |free| else |bits|
  }

  lemma PaintNothing(g: Grid, isFunction: Grid, bits: seq<bool>)
    requires Square(g, |g|) && Square(isFunction, |g|)
    ensures Painted(g, g, isFunction, [], bits, 0)
  {}

  lemma PutIsUpdate(g: Grid, c: Cell, v: bool)
    requires Square(g, |g|) && Inside(c, |g|)
    ensures Put(g, c, v) == g[c.y := g[c.y][c.x := v]]
  {}

  /** One more visited cell. */
  lemma PaintedNext(before: Grid, now: Grid, isFunction: Grid, cells: seq<Cell>, bits: seq<bool>, i: nat, c: Cell)
    requires Square(before, |before|) && Square(isFunction, |before|) && AllInside(cells, |before|)
      && Inside(c, |before|)
    requires Painted(before, now, isFunction, cells, bits, i) && Square(now, |before|)
    ensures AllInside(cells + [c], |before|)
    ensures if !At(isFunction, c) && i < |bits|
            then Painted(before, Put(now, c, bits[i]), isFunction, cells + [c], bits, i + 1)
            else Painted(before, now, isFunction, cells + [c], bits, i)
  {
    hide Put, FreeCells, Paint;
    FreeAppend(cells, isFunction, c);
    PaintAppend(before, FreeCells(cells, isFunction), c, bits);
    assert FreeCells(cells, isFunction) + [] == FreeCells(cells, isFunction);
  }

  lemma {:induction false} FreeAppend(cells: seq<Cell>, isFunction: Grid, c: Cell)
    requires Square(isFunction, |isFunction|) && AllInside(cells, |isFunction|) && Inside(c, |isFunction|)
    ensures AllInside(cells + [c], |isFunction|)
    ensures FreeCells(cells + [c], isFunction) == FreeCells(cells, isFunction) + (if At(isFunction, c) then [] else [c])
  {
    assert (cells + [c])[..|cells|] == cells;
  }

  lemma {:induction false} PaintAppend(g: Grid, cells: seq<Cell>, c: Cell, bits: seq<bool>)
    requires Square(g, |g|) && AllInside(cells, |g|) && Inside(c, |g|)
    ensures AllInside(cells + [c], |g|)
    ensures Paint(g, cells + [c], bits) == if |cells| < |bits| then Put(Paint(g, cells, bits), c, bits[|cells|])
      else Paint(g, cells, bits)
  {
    assert (cells + [c])[..|cells|] == cells;
  }

  lemma PositionFromEnd(version: nat, i: nat)
    requires version >= 2 && i < NumAlign(version) - 1
    ensures AlignPositions(version)[NumAlign(version) - 1 - i] == Size(version) - 7 - i * AlignStep(version)
  {
    var n := NumAlign(version);
    assert n - 1 - (n - 1 - i) == i;
  }

  method ComputeFormatBits(ecl: Ecc, msk: bv32) returns (bits: bv32)
    ensures bits == FormatBits(ecl, msk)
  {
    hide FormatWord, FormatStep, FormatData;
    var data := FormatData(ecl, msk);
    var rem := data;
    for i := 0 to 10
      invariant rem == FormatRemainder(data, i)
    {
      rem := FormatStep(rem);
    }
    bits := FormatWord(data, rem);
  }

  method ComputeVersionBits(version: nat) returns (bits: bv32)
    requires version <= 40
    ensures bits == VersionBits(version)
  {
    hide VersionStep, VersionWord;
    var start := version as bv32;
    var rem := start;
    for i := 0 to 12
      invariant rem == VersionRemainder(start, i)
    {
      rem := VersionStep(rem);
    }
    bits := VersionWord(start, rem);
  }

  lemma MulStep(i: int, step: int)
    ensures (i + 1) * step == i * step + step
  {}

  lemma DrawBoth(g: Grid, f: Grid, a: seq<Mark>, b: seq<Mark>)
    requires Square(g, |g|) && Square(f, |g|) && MarksInside(a, |g|) && MarksInside(b, |g|)
    ensures MarksInside(a + b, |g|)
    ensures DrawMarks(DrawMarks(g, a), b) == DrawMarks(g, a + b)
    ensures Reserve(Reserve(f, a), b) == Reserve(f, a + b)
  {
    DrawConcat(g, a, b);
    DrawConcat(f, a, b);
  }

  lemma DrawNothing(g: Grid, f: Grid)
    requires Square(g, |g|) && Square(f, |f|)
    ensures DrawMarks(g, []) == g && Reserve(f, []) == f
  {}

  // ---------- Format bits lie on function modules ----------

  lemma {:induction false} FormatSameCells(size: nat, a: bv32, b: bv32)
    requires size >= 21
    ensures SameCells(FormatMarks(size, a), FormatMarks(size, b))
  {
    hide GetBit;
  }

  lemma {:induction false} FormatOnFunction(version: nat, ecl: Ecc, bits: bv32)
    requires IsVersion(version)
    ensures OnFunction(FormatMarks(Size(version), bits), FunctionGrid(version, ecl))
  {
    hide FormatMarks, Reserve, FixedMarks, VersionMarks, FormatBits, Marked;
    var size := Size(version);
    var m, m0 := FormatMarks(size, bits), FormatMarks(size, FormatBits(ecl, 0));
    FormatSameCells(size, bits, FormatBits(ecl, 0));
    var before := FixedMarks(version);
    forall i | 0 <= i < |m|
      ensures At(FunctionGrid(version, ecl), m[i].cell)
    {
      var c := m[i].cell;
      IsMarked(m0, i);
      MarkedConcat(before, m0, c);
      MarkedConcat(before + m0, VersionMarks(version), c);
      ReserveIsMarked(Blank(size), FunctionMarks(version, ecl), c);
    }
  }

  lemma {:induction false} ReserveAgain(f: Grid, marks: seq<Mark>)
    requires Square(f, |f|) && MarksInside(marks, |f|) && OnFunction(marks, f)
    ensures Reserve(f, marks) == f
  {
    if marks != [] {
      var n := |marks| - 1;
      ReserveAgain(f, marks[..n]);
      assert At(f, marks[n].cell);
      GridEquality(Put(f, marks[n].cell, true), f);
    }
  }

  /** Masking and stamping after any number of trials gives the trial grid; undoing the mask leaves
      only the stamp. */
  lemma {:induction false} TrialFromStamp(version: nat, ecl: Ecc, coded: Grid, i: nat)
    requires IsVersion(version) && Square(coded, Size(version)) && i < 8
    ensures var f, m := FunctionGrid(version, ecl), FormatMarks(Size(version), FormatBits(ecl, i as bv32));
      && DrawMarks(Masked(Stamped(coded, ecl, i), f, i), m) == Trial(coded, f, ecl, i)
      && Masked(Trial(coded, f, ecl, i), f, i) == Stamped(coded, ecl, i + 1)
      && Reserve(f, m) == f
  {
    hide Masked, FunctionGrid, FormatMarks, DrawMarks, Reserve, FormatBits, OnFunction, SameCells;
    var f, m := FunctionGrid(version, ecl), FormatMarks(Size(version), FormatBits(ecl, i as bv32));
    FormatOnFunction(version, ecl, FormatBits(ecl, i as bv32));
    ReserveAgain(f, m);
    StampThenTrial(version, ecl, coded, i, i);
    MaskThenDraw(Masked(coded, f, i), f, i, m);
    MaskTwice(coded, f, i);
  }

  // ---------- The constructor ----------

  /** The grid with its function patterns. */
  function Prepared(version: nat, ecl: Ecc): (g: Grid)
    requires IsVersion(version)
    ensures Square(g, Size(version))
  {
    DrawMarks(Blank(Size(version)), FunctionMarks(version, ecl))
  }

  /** The cells for data, in scan order. */
  function DataCells(version: nat, ecl: Ecc): (cells: seq<Cell>)
    requires IsVersion(version)
    ensures AllInside(cells, Size(version))
  {
    FreeCells(Scan(Size(version)), FunctionGrid(version, ecl))
  }

  /** The grid after function patterns and codewords, before any mask. */
  function CodedGrid(version: nat, ecl: Ecc, codewords: seq<bv8>): (g: Grid)
    requires IsVersion(version)
    ensures Square(g, Size(version))
  {
    Paint(Prepared(version, ecl), DataCells(version, ecl), CodewordBits(codewords))
  }

  /** Makes the symbol for the given data codewords; mask -1 asks for the best mask. Refuses a wrong
      version, mask or number of codewords. */
  method Make(ver: int, ecl: Ecc, dataCodewords: seq<bv8>, msk: int)
      returns (r: Option<QrCode>, ghost codewords: seq<bv8>)
    ensures r.Some? <==> IsVersion(ver) && -1 <= msk <= 7 && |dataCodewords| == NumDataCodewords(ver, ecl)
    ensures r.Some? ==> fresh(r.value)
    ensures r.Some? ==>
      var qr, l := r.value, BlockLayout(ver, ecl);
      && qr.version == ver && qr.size == Size(ver) && qr.ecl == ecl && 0 <= qr.mask < 8
      && l.Valid() && |dataCodewords| == l.Capacity() && IsInterleaving(l, dataCodewords, codewords)
      && qr.modules == Trial(CodedGrid(ver, ecl, codewords), FunctionGrid(ver, ecl), ecl, qr.mask)
      && (msk == -1 ==> IsBestMask(CodedGrid(ver, ecl, codewords), FunctionGrid(ver, ecl), ecl, qr.mask))
      && (msk != -1 ==> qr.mask == msk)
  {
    hide DrawMarks, Reserve, FunctionMarks, Paint, FreeCells, Masked, FormatMarks, CodewordBits, PenaltyScore, Stamped,
      NumDataCodewords, NumRawDataModules, BlockLayout, IsInterleaving, Scan, Layout.Capacity;
    codewords := [];
    if !IsVersion(ver) || msk < -1 || msk > 7 {
      return None, codewords;
    }
    var qr := new QrCode(ver, ecl);
    qr.DrawFunctionPatterns();
    LayoutIsValid(ver, ecl);
    var all := AddEccAndInterleave(BlockLayout(ver, ecl), dataCodewords);
    if all.None? {
      return None, codewords;
    }
    codewords := all.value;
    InterleavingLength(ver, ecl, dataCodewords, codewords);
    var ok := qr.DrawCodewords(all.value);
    ghost var coded := qr.modules;
    assert coded == CodedGrid(ver, ecl, codewords);
    var chosen := msk;
    StampedNothing(coded, ecl);
    ghost var stamp := 0;
    if msk == -1 {
      chosen := qr.ChooseMask(coded);
      stamp := 8;
    }
    qr.mask := chosen;
    ok := qr.ApplyMask(chosen);
    StampThenTrial(ver, ecl, coded, stamp, chosen);
    qr.DrawFormatBits(chosen);
    qr.isFunction := [];
    r := Some(qr);
  }

  /** The modules are some codewords under the lowest-numbered mask of minimal penalty. */
  ghost predicate CarriesBestMask(qr: QrCode)
    reads qr
  {
    && IsVersion(qr.version) && 0 <= qr.mask < 8
    && exists codewords :: ShowsBest(qr.modules, qr.version, qr.ecl, qr.mask, codewords)
  }

  ghost predicate ShowsBest(g: Grid, version: nat, ecl: Ecc, mask: nat, codewords: seq<bv8>)
    requires IsVersion(version) && mask < 8
  {
    var coded, f := CodedGrid(version, ecl, codewords), FunctionGrid(version, ecl);
    g == Trial(coded, f, ecl, mask) && IsBestMask(coded, f, ecl, mask)
  }

  lemma InterleavingLength(version: nat, ecl: Ecc, data: seq<bv8>, codewords: seq<bv8>)
    requires IsVersion(version)
    requires var l := BlockLayout(version, ecl);
      l.Valid() && |data| == l.Capacity() && IsInterleaving(l, data, codewords)
    ensures |codewords| == NumRawDataModules(version) / 8
  {
    hide NumBlocks, EccPerBlock, NumRawDataModules, Fits;
  }

  /** The final mask goes over whatever stamp the trials left. */
  lemma {:induction false} StampThenTrial(version: nat, ecl: Ecc, coded: Grid, stamp: nat, k: nat)
    requires IsVersion(version) && Square(coded, Size(version)) && stamp <= 8 && k < 8
    ensures var f, m := FunctionGrid(version, ecl), FormatMarks(Size(version), FormatBits(ecl, k as bv32));
      DrawMarks(Masked(Stamped(coded, ecl, stamp), f, k), m) == Trial(coded, f, ecl, k)
  {
    hide Masked, FunctionGrid, FormatMarks, DrawMarks, Reserve, FormatBits, OnFunction, SameCells;
    var f, m := FunctionGrid(version, ecl), FormatMarks(Size(version), FormatBits(ecl, k as bv32));
    if stamp > 0 {
      var last := FormatMarks(Size(version), FormatBits(ecl, (stamp - 1) as bv32));
      FormatOnFunction(version, ecl, FormatBits(ecl, (stamp - 1) as bv32));
      MaskThenDraw(coded, f, k, last);
      FormatSameCells(Size(version), FormatBits(ecl, (stamp - 1) as bv32), FormatBits(ecl, k as bv32));
      DrawReplaces(Masked(coded, f, k), last, m);
    }
  }
}
