/** What a finished symbol looks like: the colors of finder, timing and alignment patterns as section 6.3 of
    ISO/IEC 18004 describes them, whatever codewords and mask it carries. */
module QrLook {
  import opened Arithmetic
  import opened QrGrid
  import opened QrPatterns
  import opened QrCapacity
  import opened QrFreeCells
  import opened QrMask
  import opened QrBits
  import opened QrCode
  import opened QrEncode

  // ---------- What a list of marks makes of one cell ----------

  /** Every mark on c has this color. */
  ghost predicate AllShow(marks: seq<Mark>, c: Cell, dark: bool) {
    forall i :: 0 <= i < |marks| && marks[i].cell == c ==> marks[i].dark == dark
  }

  lemma AllShowConcat(a: seq<Mark>, b: seq<Mark>, c: Cell, dark: bool)
    requires AllShow(a, c, dark) && AllShow(b, c, dark)
    ensures AllShow(a + b, c, dark)
  {}

  lemma {:induction false} MarkShows(g: Grid, marks: seq<Mark>, c: Cell, dark: bool)
    requires Square(g, |g|) && MarksInside(marks, |g|) && Inside(c, |g|)
    requires AllShow(marks, c, dark) && (Marked(marks, c) || At(g, c) == dark)
    ensures At(DrawMarks(g, marks), c) == dark
  {
    if marks != [] {
      var n := |marks| - 1;
      assert marks == marks[..n] + [marks[n]];
      if marks[n].cell != c {
        MarkedConcat(marks[..n], [marks[n]], c);
        assert AllShow(marks[..n], c, dark);
        MarkShows(g, marks[..n], c, dark);
      }
    }
  }

  // ---------- Colors of the patterns ----------

  /** The distance of a module from the center of its pattern, along the farther axis. */
  function Ring(dx: int, dy: int): nat { Max(Abs(dx), Abs(dy)) }

  function FinderDark(dx: int, dy: int): bool { Ring(dx, dy) != 2 && Ring(dx, dy) != 4 }

  function AlignmentDark(dx: int, dy: int): bool { Ring(dx, dy) != 1 }

  lemma {:induction false} TimingMarksShow(size: nat, n: nat, i: nat)
    requires n <= size && size > 6
    ensures AllShow(TimingMarks(size, n), Cell(6, i), i % 2 == 0)
    ensures AllShow(TimingMarks(size, n), Cell(i, 6), i % 2 == 0)
  {
    if n > 0 { TimingMarksShow(size, n - 1, i); }
  }

  lemma {:induction false} FinderRowShows(size: nat, x: int, y: int, dy: int, n: nat, c: Cell)
    ensures AllShow(FinderRow(size, x, y, dy, n), c, FinderDark(c.x - x, c.y - y))
  {
    if n > 0 { FinderRowShows(size, x, y, dy, n - 1, c); }
  }

  lemma {:induction false} FinderShows(size: nat, x: int, y: int, n: nat, c: Cell)
    ensures AllShow(FinderMarks(size, x, y, n), c, FinderDark(c.x - x, c.y - y))
  {
    hide FinderDark, FinderRow;
    if n > 0 {
      FinderShows(size, x, y, n - 1, c);
      FinderRowShows(size, x, y, n - 5, 9, c);
    }
  }

  predicate Within(c: Cell, x: int, y: int, r: nat) { Abs(c.x - x) <= r && Abs(c.y - y) <= r }

  lemma {:induction false} FinderRowWithin(size: nat, x: int, y: int, dy: int, n: nat, c: Cell)
    requires -4 <= dy <= 4 && n <= 9 && Marked(FinderRow(size, x, y, dy, n), c)
    ensures Within(c, x, y, 4)
  {
    if n > 0 && Marked(FinderRow(size, x, y, dy, n - 1), c) { FinderRowWithin(size, x, y, dy, n - 1, c); }
  }

  lemma {:induction false} FinderWithin(size: nat, x: int, y: int, n: nat, c: Cell)
    requires n <= 9 && Marked(FinderMarks(size, x, y, n), c)
    ensures Within(c, x, y, 4)
  {
    hide FinderRow, Within;
    assert n > 0;
    MarkedConcat(FinderMarks(size, x, y, n - 1), FinderRow(size, x, y, n - 5, 9), c);
    hide Marked;
    if Marked(FinderMarks(size, x, y, n - 1), c) {
      FinderWithin(size, x, y, n - 1, c);
    } else {
      FinderRowWithin(size, x, y, n - 5, 9, c);
    }
  }

  lemma {:induction false} AlignmentRowShows(size: nat, x: int, y: int, dy: int, n: nat, c: Cell, dark: bool)
    requires AlignmentFits(size, x, y) && -2 <= dy <= 2 && n <= 5
    requires Within(c, x, y, 2) ==> dark == AlignmentDark(c.x - x, c.y - y)
    ensures AllShow(AlignmentRow(size, x, y, dy, n), c, dark)
  {
    if n > 0 { AlignmentRowShows(size, x, y, dy, n - 1, c, dark); }
  }

  lemma {:induction false} AlignmentShows(size: nat, x: int, y: int, n: nat, c: Cell, dark: bool)
    requires AlignmentFits(size, x, y) && n <= 5
    requires Within(c, x, y, 2) ==> dark == AlignmentDark(c.x - x, c.y - y)
    ensures AllShow(AlignmentMarks(size, x, y, n), c, dark)
  {
    hide AlignmentDark, AlignmentRow, Within;
    if n > 0 {
      AlignmentShows(size, x, y, n - 1, c, dark);
      AlignmentRowShows(size, x, y, n - 3, 5, c, dark);
    }
  }

  /** Every alignment pattern drawn over c gives it this color. */
  ghost predicate PatternsAgree(version: nat, c: Cell, dark: bool)
    requires IsVersion(version)
  {
    forall i: nat, j: nat :: Drawn(version, i, j) && OnAlignment(version, i, j, c) ==>
      dark == AlignmentDark(c.x - AlignPositions(version)[i], c.y - AlignPositions(version)[j])
  }

  lemma {:induction false} AlignmentLineShows(version: nat, i: nat, n: nat, c: Cell, dark: bool)
    requires IsVersion(version) && i < NumAlign(version) && n <= NumAlign(version) && PatternsAgree(version, c, dark)
    ensures AllShow(AlignmentLine(version, i, n), c, dark)
  {
    hide AlignPositions, AlignmentMarks, AlignmentDark, NumAlign, AllShow;
    if n > 0 {
      var p, before := AlignPositions(version), AlignmentLine(version, i, n - 1);
      AlignPositionsFit(version, i);
      AlignPositionsFit(version, n - 1);
      AlignmentLineShows(version, i, n - 1, c, dark);
      NumAlignPositive(version);
      if Drawn(version, i, n - 1) {
        AlignmentShows(Size(version), p[i], p[n - 1], 5, c, dark);
        AllShowConcat(before, AlignmentMarks(Size(version), p[i], p[n - 1], 5), c, dark);
      } else {
        assert before + [] == before;
      }
    } else {
      NothingShown(c, dark);
    }
  }

  lemma NothingShown(c: Cell, dark: bool)
    ensures AllShow([], c, dark)
  {}

  lemma {:induction false} AllAlignmentShows(version: nat, n: nat, c: Cell, dark: bool)
    requires IsVersion(version) && n <= NumAlign(version) && PatternsAgree(version, c, dark)
    ensures AllShow(AllAlignmentMarks(version, n), c, dark)
  {
    hide AlignPositions, AlignmentLine, NumAlign, AllShow, PatternsAgree;
    if n > 0 {
      AllAlignmentShows(version, n - 1, c, dark);
      AlignmentLineShows(version, n - 1, NumAlign(version), c, dark);
      AllShowConcat(AllAlignmentMarks(version, n - 1), AlignmentLine(version, n - 1, NumAlign(version)), c, dark);
    } else {
      NothingShown(c, dark);
    }
  }

  // ---------- The marks in drawing order ----------

  function Finders(size: nat): (m: seq<Mark>)
    ensures MarksInside(m, size)
  {
    FinderMarks(size, 3, 3, 9) + FinderMarks(size, size - 4, 3, 9) + FinderMarks(size, 3, size - 4, 9)
  }

  /** Everything drawn over the timing patterns. */
  function Later(version: nat, ecl: Ecc): (m: seq<Mark>)
    requires IsVersion(version)
    ensures MarksInside(m, Size(version))
  {
    var size := Size(version);
    Finders(size) + AllAlignmentMarks(version, NumAlign(version)) + FormatMarks(size, FormatBits(ecl, 0))
    + VersionMarks(version)
  }

  lemma FunctionMarksSplit(version: nat, ecl: Ecc)
    requires IsVersion(version)
    ensures FunctionMarks(version, ecl) == TimingMarks(Size(version), Size(version)) + Later(version, ecl)
  {
    hide TimingMarks, FinderMarks, AllAlignmentMarks, FormatMarks, VersionMarks, FormatBits, NumAlign;
  }

  lemma LaterShows(version: nat, ecl: Ecc, c: Cell, dark: bool)
    requires IsVersion(version)
    requires var size := Size(version);
      && AllShow(FinderMarks(size, 3, 3, 9), c, dark) && AllShow(FinderMarks(size, size - 4, 3, 9), c, dark)
      && AllShow(FinderMarks(size, 3, size - 4, 9), c, dark)
      && AllShow(AllAlignmentMarks(version, NumAlign(version)), c, dark)
      && AllShow(FormatMarks(size, FormatBits(ecl, 0)), c, dark) && AllShow(VersionMarks(version), c, dark)
    ensures AllShow(Later(version, ecl), c, dark)
  {
    hide FinderMarks, AllAlignmentMarks, FormatMarks, VersionMarks, FormatBits, NumAlign, AllShow;
    var size := Size(version);
    var f1, f2, f3 := FinderMarks(size, 3, 3, 9), FinderMarks(size, size - 4, 3, 9), FinderMarks(size, 3, size - 4, 9);
    var align, format := AllAlignmentMarks(version, NumAlign(version)), FormatMarks(size, FormatBits(ecl, 0));
    AllShowConcat(f1, f2, c, dark);
    AllShowConcat(f1 + f2, f3, c, dark);
    AllShowConcat(f1 + f2 + f3, align, c, dark);
    AllShowConcat(f1 + f2 + f3 + align, format, c, dark);
    AllShowConcat(f1 + f2 + f3 + align + format, VersionMarks(version), c, dark);
  }

  lemma LaterMarked(version: nat, ecl: Ecc, c: Cell)
    requires IsVersion(version)
    requires var size := Size(version);
      || Marked(FinderMarks(size, 3, 3, 9), c) || Marked(FinderMarks(size, size - 4, 3, 9), c)
      || Marked(FinderMarks(size, 3, size - 4, 9), c) || Marked(AllAlignmentMarks(version, NumAlign(version)), c)
    ensures Marked(Later(version, ecl), c)
  {
    hide FinderMarks, AllAlignmentMarks, FormatMarks, VersionMarks, FormatBits, NumAlign, Marked;
    var size := Size(version);
    var f1, f2, f3 := FinderMarks(size, 3, 3, 9), FinderMarks(size, size - 4, 3, 9), FinderMarks(size, 3, size - 4, 9);
    var align, format := AllAlignmentMarks(version, NumAlign(version)), FormatMarks(size, FormatBits(ecl, 0));
    MarkedConcat(f1, f2, c);
    MarkedConcat(f1 + f2, f3, c);
    MarkedConcat(f1 + f2 + f3, align, c);
    MarkedConcat(f1 + f2 + f3 + align, format, c);
    MarkedConcat(f1 + f2 + f3 + align + format, VersionMarks(version), c);
  }

  lemma PreparedShows(version: nat, ecl: Ecc, c: Cell, dark: bool)
    requires IsVersion(version) && Inside(c, Size(version)) && AllShow(Later(version, ecl), c, dark)
    requires var timing := TimingMarks(Size(version), Size(version));
      Marked(Later(version, ecl), c) || (Marked(timing, c) && AllShow(timing, c, dark))
    ensures At(Prepared(version, ecl), c) == dark
  {
    hide TimingMarks, Later, FunctionMarks, DrawMarks, AllShow, Marked;
    var size := Size(version);
    var timing, blank := TimingMarks(size, size), Blank(size);
    FunctionMarksSplit(version, ecl);
    DrawConcat(blank, timing, Later(version, ecl));
    if Marked(timing, c) && AllShow(timing, c, dark) {
      MarkShows(blank, timing, c, dark);
    }
    MarkShows(DrawMarks(blank, timing), Later(version, ecl), c, dark);
  }

  // ---------- Format and version modules are elsewhere ----------

  predicate OffFormat(size: nat, c: Cell) {
    && !(c.x == 8 && c.y != 6 && (c.y <= 8 || c.y >= size - 8))
    && !(c.y == 8 && c.x != 6 && (c.x <= 8 || c.x >= size - 8))
  }

  predicate OffVersion(size: nat, c: Cell) {
    && !(c.x < 6 && size - 11 <= c.y < size - 8)
    && !(c.y < 6 && size - 11 <= c.x < size - 8)
  }

  lemma FormatUnmarked(size: nat, bits: bv32, c: Cell)
    requires size >= 21 && OffFormat(size, c)
    ensures !Marked(FormatMarks(size, bits), c)
  {
    hide GetBit;
  }

  lemma {:induction false} VersionUnmarked(size: nat, bits: bv32, n: nat, c: Cell)
    requires size >= 21 && n <= 18 && OffVersion(size, c)
    ensures !Marked(VersionCells(size, bits, n), c)
  {
    hide GetBit;
    if n > 0 { VersionUnmarked(size, bits, n - 1, c); }
  }

  lemma InfoShows(version: nat, ecl: Ecc, c: Cell, dark: bool)
    requires IsVersion(version) && OffFormat(Size(version), c) && (version >= 7 ==> OffVersion(Size(version), c))
    ensures AllShow(FormatMarks(Size(version), FormatBits(ecl, 0)), c, dark) && AllShow(VersionMarks(version), c, dark)
  {
    hide FormatMarks, VersionCells, FormatBits, VersionBits, OffFormat, OffVersion;
    FormatUnmarked(Size(version), FormatBits(ecl, 0), c);
    if version >= 7 { VersionUnmarked(Size(version), VersionBits(version), 18, c); }
  }

  // ---------- The finished symbol ----------

  /** Function modules outside the format bits keep their color when codewords and mask are added. */
  lemma FunctionCellKept(version: nat, ecl: Ecc, codewords: seq<bv8>, mask: nat, c: Cell)
    requires IsVersion(version) && mask < 8 && Inside(c, Size(version)) && OffFormat(Size(version), c)
    requires Marked(FunctionMarks(version, ecl), c)
    ensures At(Trial(CodedGrid(version, ecl, codewords), FunctionGrid(version, ecl), ecl, mask), c)
         == At(Prepared(version, ecl), c)
  {
    hide FormatMarks, FunctionMarks, DrawMarks, Reserve, Paint, DataCells, Masked, FormatBits, Marked, OffFormat,
      Prepared;
    var f, coded, word := FunctionGrid(version, ecl), CodedGrid(version, ecl, codewords), FormatBits(ecl, mask as bv32);
    FormatUnmarked(Size(version), word, c);
    ReserveIsMarked(Masked(coded, f, mask), FormatMarks(Size(version), word), c);
    ReserveIsMarked(Blank(Size(version)), FunctionMarks(version, ecl), c);
    DataCellsFacts(version, ecl);
    PaintElsewhere(Prepared(version, ecl), DataCells(version, ecl), CodewordBits(codewords), c);
  }

  lemma FinishedShows(version: nat, ecl: Ecc, codewords: seq<bv8>, mask: nat, c: Cell, dark: bool)
    requires IsVersion(version) && mask < 8 && Inside(c, Size(version)) && OffFormat(Size(version), c)
    requires AllShow(Later(version, ecl), c, dark)
    requires var timing := TimingMarks(Size(version), Size(version));
      Marked(Later(version, ecl), c) || (Marked(timing, c) && AllShow(timing, c, dark))
    ensures At(Trial(CodedGrid(version, ecl, codewords), FunctionGrid(version, ecl), ecl, mask), c) == dark
  {
    hide TimingMarks, Later, FunctionMarks, AllShow, Marked, OffFormat, Prepared, CodedGrid, FunctionGrid, Trial;
    FunctionMarksSplit(version, ecl);
    MarkedConcat(TimingMarks(Size(version), Size(version)), Later(version, ecl), c);
    PreparedShows(version, ecl, c, dark);
    FunctionCellKept(version, ecl, codewords, mask, c);
  }

  // ---------- Finder patterns ----------

  /** The centers of the three finder patterns. */
  function FinderX(size: nat, k: nat): int { if k == 1 then size - 4 else 3 }

  function FinderY(size: nat, k: nat): int { if k == 2 then size - 4 else 3 }

  lemma UnmarkedShows(marks: seq<Mark>, c: Cell, dark: bool)
    requires !Marked(marks, c)
    ensures AllShow(marks, c, dark)
  {}

  lemma FinderElsewhere(size: nat, x: int, y: int, c: Cell, dark: bool)
    requires Within(c, x, y, 4) ==> dark == FinderDark(c.x - x, c.y - y)
    ensures AllShow(FinderMarks(size, x, y, 9), c, dark)
  {
    hide FinderMarks, Within, FinderDark, AllShow, Marked;
    if Marked(FinderMarks(size, x, y, 9), c) {
      FinderWithin(size, x, y, 9, c);
      FinderShows(size, x, y, 9, c);
    } else {
      UnmarkedShows(FinderMarks(size, x, y, 9), c, dark);
    }
  }

  /** No alignment pattern reaches the corners of the finder patterns. */
  lemma CornerHasNoAlignment(version: nat, c: Cell, dark: bool)
    requires IsVersion(version)
    requires var size := Size(version);
      (c.x < 8 && c.y < 8) || (size - 8 <= c.x && c.y < 8) || (c.x < 8 && size - 8 <= c.y)
    ensures PatternsAgree(version, c, dark)
  {
    if version >= 2 { assert AlignPositions(version)[0] == 6; }
    hide AlignmentDark, AlignPositions, NumAlign;
    forall i: nat, j: nat | Drawn(version, i, j)
      ensures !OnAlignment(version, i, j, c)
    {
      AlignPositionsFit(version, i);
      AlignPositionsFit(version, j);
    }
  }

  /** The finder patterns of a finished symbol are rings about their centers, with their light border. */
  lemma FindersShow(version: nat, ecl: Ecc, codewords: seq<bv8>, mask: nat, k: nat, c: Cell)
    requires IsVersion(version) && mask < 8 && k < 3 && Inside(c, Size(version))
    requires Within(c, FinderX(Size(version), k), FinderY(Size(version), k), 4)
    ensures At(Trial(CodedGrid(version, ecl, codewords), FunctionGrid(version, ecl), ecl, mask), c)
         == FinderDark(c.x - FinderX(Size(version), k), c.y - FinderY(Size(version), k))
  {
    hide FinderDark, FinderMarks, AllAlignmentMarks, FormatMarks, VersionMarks, FormatBits, NumAlign, AllShow, Marked,
      Later, CodedGrid, FunctionGrid, Trial, TimingMarks, PatternsAgree;
    SizeBound(version);
    var size := Size(version);
    var x, y := FinderX(size, k), FinderY(size, k);
    var dark := FinderDark(c.x - x, c.y - y);
    FinderElsewhere(size, 3, 3, c, dark);
    FinderElsewhere(size, size - 4, 3, c, dark);
    FinderElsewhere(size, 3, size - 4, c, dark);
    CornerHasNoAlignment(version, c, dark);
    AllAlignmentShows(version, NumAlign(version), c, dark);
    InfoShows(version, ecl, c, dark);
    LaterShows(version, ecl, c, dark);
    FinderDrawn(size, x, y, c.x - x, c.y - y, 9);
    LaterMarked(version, ecl, c);
    FinishedShows(version, ecl, codewords, mask, c, dark);
  }

  // ---------- Timing patterns ----------

  lemma EvenTimes(m: int, step: int)
    requires step % 2 == 0
    ensures m * step % 2 == 0
  {
    assert m * step == 2 * (m * (step / 2)) by { assert step == 2 * (step / 2); }
  }

  lemma PositionIsEven(version: nat, i: nat)
    requires 2 <= version <= 40 && i < NumAlign(version)
    ensures AlignPositions(version)[i] % 2 == 0
  {
    var m, step := NumAlign(version) - 1 - i, AlignStep(version);
    assert step % 2 == 0;
    if i > 0 {
      assert AlignPositions(version)[i] == Size(version) - 7 - m * step;
      hide AlignPositions, AlignStep, NumAlign;
      EvenTimes(m, step);
    }
  }

  /** Where an alignment pattern crosses a timing line, its modules alternate in step with the line. */
  lemma CrossingAgrees(version: nat, c: Cell)
    requires IsVersion(version) && Inside(c, Size(version))
    requires (c.x == 6 && 8 <= c.y < Size(version) - 8) || (c.y == 6 && 8 <= c.x < Size(version) - 8)
    ensures PatternsAgree(version, c, (c.x + c.y) % 2 == 0)
  {
    var p := AlignPositions(version);
    forall i: nat, j: nat | Drawn(version, i, j) && OnAlignment(version, i, j, c)
      ensures ((c.x + c.y) % 2 == 0) == AlignmentDark(c.x - p[i], c.y - p[j])
    {
      AlignPositionsFit(version, i);
      AlignPositionsFit(version, j);
      PositionIsEven(version, i);
      PositionIsEven(version, j);
      assert p[0] == 6;
      hide AlignPositions, NumAlign;
    }
  }

  /** The timing patterns of a finished symbol alternate, also where alignment patterns cross them. */
  lemma TimingShows(version: nat, ecl: Ecc, codewords: seq<bv8>, mask: nat, c: Cell)
    requires IsVersion(version) && mask < 8
    requires (c.x == 6 && 8 <= c.y < Size(version) - 8) || (c.y == 6 && 8 <= c.x < Size(version) - 8)
    ensures At(Trial(CodedGrid(version, ecl, codewords), FunctionGrid(version, ecl), ecl, mask), c)
         == ((c.x + c.y) % 2 == 0)
  {
    hide FinderDark, FinderMarks, AllAlignmentMarks, FormatMarks, VersionMarks, FormatBits, NumAlign, AllShow, Marked,
      Later, CodedGrid, FunctionGrid, Trial, TimingMarks, PatternsAgree;
    SizeBound(version);
    var size, dark := Size(version), (c.x + c.y) % 2 == 0;
    FinderElsewhere(size, 3, 3, c, dark);
    FinderElsewhere(size, size - 4, 3, c, dark);
    FinderElsewhere(size, 3, size - 4, c, dark);
    CrossingAgrees(version, c);
    AllAlignmentShows(version, NumAlign(version), c, dark);
    InfoShows(version, ecl, c, dark);
    LaterShows(version, ecl, c, dark);
    var i := if c.x == 6 then c.y else c.x;
    TimingMarksShow(size, size, i);
    TimingDrawn(size, size, i);
    FinishedShows(version, ecl, codewords, mask, c, dark);
  }

  // ---------- Alignment patterns ----------

  /** No two alignment patterns share a module. */
  lemma OneAlignment(version: nat, i: nat, j: nat, c: Cell)
    requires Drawn(version, i, j) && OnAlignment(version, i, j, c)
    ensures PatternsAgree(version, c, AlignmentDark(c.x - AlignPositions(version)[i], c.y - AlignPositions(version)[j]))
  {
    hide AlignmentDark, AlignPositions, NumAlign;
    forall a: nat, b: nat | Drawn(version, a, b) && OnAlignment(version, a, b, c)
      ensures a == i && b == j
    {
      if a < i { PositionsApart(version, a, i); }
      if i < a { PositionsApart(version, i, a); }
      if b < j { PositionsApart(version, b, j); }
      if j < b { PositionsApart(version, j, b); }
    }
  }

  /** Where the modules of alignment patterns lie. */
  lemma AlignmentPlace(version: nat, i: nat, j: nat, c: Cell)
    requires Drawn(version, i, j) && OnAlignment(version, i, j, c)
    ensures Inside(c, Size(version)) && OffFormat(Size(version), c) && (version >= 7 ==> OffVersion(Size(version), c))
    ensures forall k :: 0 <= k < 3 ==> !Within(c, FinderX(Size(version), k), FinderY(Size(version), k), 4)
  {
    assert AlignPositions(version)[0] == 6;
    hide AlignPositions, NumAlign;
    AlignPositionsFit(version, i);
    AlignPositionsFit(version, j);
  }

  /** The alignment patterns of a finished symbol are rings about their centers. */
  lemma AlignmentsShow(version: nat, ecl: Ecc, codewords: seq<bv8>, mask: nat, i: nat, j: nat, c: Cell)
    requires IsVersion(version) && mask < 8 && Drawn(version, i, j) && OnAlignment(version, i, j, c)
    ensures Inside(c, Size(version))
    ensures At(Trial(CodedGrid(version, ecl, codewords), FunctionGrid(version, ecl), ecl, mask), c)
         == AlignmentDark(c.x - AlignPositions(version)[i], c.y - AlignPositions(version)[j])
  {
    hide FinderDark, AlignmentDark, FinderMarks, AllAlignmentMarks, FormatMarks, VersionMarks, FormatBits, NumAlign,
      AllShow, Marked, Later, CodedGrid, FunctionGrid, Trial, TimingMarks, PatternsAgree, AlignPositions, OnAlignment,
      OffFormat, OffVersion, Within;
    SizeBound(version);
    var size, p := Size(version), AlignPositions(version);
    var dark := AlignmentDark(c.x - p[i], c.y - p[j]);
    AlignmentPlace(version, i, j, c);
    assert !Within(c, FinderX(size, 0), FinderY(size, 0), 4) && !Within(c, FinderX(size, 1), FinderY(size, 1), 4)
      && !Within(c, FinderX(size, 2), FinderY(size, 2), 4);
    FinderElsewhere(size, 3, 3, c, dark);
    FinderElsewhere(size, size - 4, 3, c, dark);
    FinderElsewhere(size, 3, size - 4, c, dark);
    OneAlignment(version, i, j, c);
    AllAlignmentShows(version, NumAlign(version), c, dark);
    InfoShows(version, ecl, c, dark);
    LaterShows(version, ecl, c, dark);
    AllAlignmentDrawn(version, i, j, NumAlign(version), c);
    LaterMarked(version, ecl, c);
    FinishedShows(version, ecl, codewords, mask, c, dark);
  }

  // ---------- The dark module ----------

  /** The module beside the second copy of the format bits is always dark. */
  lemma DarkModuleShows(version: nat, ecl: Ecc, codewords: seq<bv8>, mask: nat)
    requires IsVersion(version) && mask < 8
    ensures At(Trial(CodedGrid(version, ecl, codewords), FunctionGrid(version, ecl), ecl, mask),
      Cell(8, Size(version) - 8))
  {
    hide FormatBits, CodedGrid, FunctionGrid, Masked, DrawMarks, GetBit;
    var size, word := Size(version), FormatBits(ecl, mask as bv32);
    var marks := FormatMarks(size, word);
    var n := |marks| - 1;
    assert marks[n] == Mark(Cell(8, size - 8), true);
    DrawShows(Masked(CodedGrid(version, ecl, codewords), FunctionGrid(version, ecl), mask), marks, n);
  }
}
