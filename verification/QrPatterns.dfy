/** The function modules of a QR Code, as the list of cells and colors in drawing order. */
module QrPatterns {
  import opened Arithmetic
  import opened QrGrid

  datatype Ecc = Low | Medium | Quartile | High

  datatype Mark = Mark(cell: Cell, dark: bool)

  function Size(version: nat): nat { version * 4 + 17 }

  predicate IsVersion(version: int) { 1 <= version <= 40 }

  predicate MarksInside(marks: seq<Mark>, size: nat) {
    forall i :: 0 <= i < |marks| ==> Inside(marks[i].cell, size)
  }

  /** Draws the marks one after the other; later ones overwrite earlier ones. */
  function DrawMarks(g: Grid, marks: seq<Mark>): (r: Grid)
    requires Square(g, |g|) && MarksInside(marks, |g|)
    ensures Square(r, |g|)
  {
    if marks == [] then g
    else
      var n := |marks| - 1;
      Put(DrawMarks(g, marks[..n]), marks[n].cell, marks[n].dark)
  }

  /** Remembers the marked cells as function modules. */
  function Reserve(g: Grid, marks: seq<Mark>): (r: Grid)
    requires Square(g, |g|) && MarksInside(marks, |g|)
    ensures Square(r, |g|)
  {
    if marks == [] then g
    else
      var n := |marks| - 1;
      Put(Reserve(g, marks[..n]), marks[n].cell, true)
  }

  ghost predicate Marked(marks: seq<Mark>, c: Cell) {
    exists i :: 0 <= i < |marks| && marks[i].cell == c
  }

  lemma MarkedConcat(a: seq<Mark>, b: seq<Mark>, c: Cell)
    ensures Marked(a + b, c) <==> Marked(a, c) || Marked(b, c)
  {
    if Marked(a, c) {
      var i :| 0 <= i < |a| && a[i].cell == c;
      assert (a + b)[i].cell == c;
    }
    if Marked(b, c) {
      var i :| 0 <= i < |b| && b[i].cell == c;
      assert (a + b)[|a| + i].cell == c;
    }
    if Marked(a + b, c) {
      var i :| 0 <= i < |a + b| && (a + b)[i].cell == c;
      assert if i < |a| then a[i].cell == c else b[i - |a|].cell == c;
    }
  }

  lemma IsMarked(marks: seq<Mark>, i: nat)
    requires i < |marks|
    ensures Marked(marks, marks[i].cell)
  {}

  lemma {:induction false} DrawConcat(g: Grid, a: seq<Mark>, b: seq<Mark>)
    requires Square(g, |g|) && MarksInside(a, |g|) && MarksInside(b, |g|)
    ensures MarksInside(a + b, |g|)
    ensures DrawMarks(g, a + b) == DrawMarks(DrawMarks(g, a), b)
    ensures Reserve(g, a + b) == Reserve(Reserve(g, a), b)
  {
    if b == [] {
      assert a + b == a;
    } else {
      var n := |b| - 1;
      DrawConcat(g, a, b[..n]);
      assert (a + b)[..|a + b| - 1] == a + b[..n];
    }
  }

  /** The reserved cells are the marked ones and those reserved before. */
  lemma {:induction false} ReserveIsMarked(g: Grid, marks: seq<Mark>, c: Cell)
    requires Square(g, |g|) && MarksInside(marks, |g|) && Inside(c, |g|)
    ensures At(Reserve(g, marks), c) <==> At(g, c) || Marked(marks, c)
    ensures !Marked(marks, c) ==> At(DrawMarks(g, marks), c) == At(g, c)
  {
    if marks != [] {
      var n := |marks| - 1;
      ReserveIsMarked(g, marks[..n], c);
      if Marked(marks[..n], c) {
        var i :| 0 <= i < n && marks[..n][i].cell == c;
        assert marks[i].cell == c;
      }
      if Marked(marks, c) {
        var i :| 0 <= i < |marks| && marks[i].cell == c;
        assert i < n ==> marks[..n][i].cell == c;
      }
    }
  }

  // ---------- Timing, finder and alignment patterns ----------

  function TimingMarks(size: nat, n: nat): (m: seq<Mark>)
    requires n <= size && size > 6
    ensures MarksInside(m, size)
  {
    if n == 0 then []
    else
      var i := n - 1;
      TimingMarks(size, i) + [Mark(Cell(6, i), i % 2 == 0)] + [Mark(Cell(i, 6), i % 2 == 0)]
  }

  /** The first n cells of row dy of a finder pattern centered at (x, y), clipped to the grid. */
  function FinderRow(size: nat, x: int, y: int, dy: int, n: nat): (m: seq<Mark>)
    ensures MarksInside(m, size)
  {
    if n == 0 then []
    else
      var dx := n - 5;
      var dist := Max(Abs(dx), Abs(dy));
      FinderRow(size, x, y, dy, n - 1)
      + (if 0 <= x + dx < size && 0 <= y + dy < size then [Mark(Cell(x + dx, y + dy), dist != 2 && dist != 4)] else [])
  }

  function FinderMarks(size: nat, x: int, y: int, n: nat): (m: seq<Mark>)
    ensures MarksInside(m, size)
  {
    if n == 0 then [] else FinderMarks(size, x, y, n - 1) + FinderRow(size, x, y, n - 5, 9)
  }

  predicate AlignmentFits(size: nat, x: int, y: int) {
    2 <= x < size - 2 && 2 <= y < size - 2
  }

  function AlignmentRow(size: nat, x: int, y: int, dy: int, n: nat): (m: seq<Mark>)
    requires AlignmentFits(size, x, y) && -2 <= dy <= 2 && n <= 5
    ensures MarksInside(m, size)
  {
    if n == 0 then []
    else
      var dx := n - 3;
      AlignmentRow(size, x, y, dy, n - 1) + [Mark(Cell(x + dx, y + dy), Max(Abs(dx), Abs(dy)) != 1)]
  }

  function AlignmentMarks(size: nat, x: int, y: int, n: nat): (m: seq<Mark>)
    requires AlignmentFits(size, x, y) && n <= 5
    ensures MarksInside(m, size)
  {
    if n == 0 then [] else AlignmentMarks(size, x, y, n - 1) + AlignmentRow(size, x, y, n - 3, 5)
  }

  function NumAlign(version: nat): nat { if version == 1 then 0 else version / 7 + 2 }

  function AlignStep(version: nat): nat
    requires version >= 2
  {
    if version == 32 then 26
    else (version * 4 + NumAlign(version) * 2 + 1) / (NumAlign(version) * 2 - 2) * 2
  }

  /** The centers of the alignment patterns along one axis, ascending. */
  function AlignPositions(version: nat): (p: seq<int>)
    requires version >= 1
    ensures |p| == NumAlign(version)
  {
    if version == 1 then []
    else
      seq(NumAlign(version), i requires 0 <= i < NumAlign(version) =>
        if i == 0 then 6 else Size(version) - 7 - (NumAlign(version) - 1 - i) * AlignStep(version))
  }

  lemma StepTimes(step: int)
    ensures 0 * step == 0 && 1 * step == step && 2 * step == step + step && 3 * step == step + step + step
    ensures 4 * step == 2 * (step + step) && 5 * step == 2 * (step + step) + step
  {}

  lemma StepBound(version: nat, k: nat)
    requires 2 <= version <= 40 && k <= NumAlign(version) - 2
    ensures 0 <= k * AlignStep(version) <= Size(version) - 25
    ensures AlignStep(version) >= 12 && (k >= 1 ==> k * AlignStep(version) >= 12)
  {
    var step, n := AlignStep(version), NumAlign(version);
    StepTimes(step);
    assert k == 0 || k == 1 || k == 2 || k == 3 || k == 4 || k == 5;
    if n == 2 {
    } else if n == 3 {
    } else if n == 4 {
    } else if n == 5 {
    } else if n == 6 {
    } else {
      assert n == 7;
    }
  }

  /** Interior centers keep clear of the finder patterns, so no alignment pattern leaves the grid. */
  lemma AlignPositionsFit(version: nat, i: nat)
    requires IsVersion(version) && i < NumAlign(version)
    ensures 6 <= AlignPositions(version)[i] <= Size(version) - 7
    ensures i > 0 ==> 18 <= AlignPositions(version)[i]
    ensures i < NumAlign(version) - 1 ==> AlignPositions(version)[i] <= Size(version) - 19
  {
    if i > 0 {
      StepBound(version, NumAlign(version) - 1 - i);
    }
  }

  /** All alignment patterns of one row of centers, except those under the finder patterns. */
  function AlignmentLine(version: nat, i: nat, n: nat): (m: seq<Mark>)
    requires IsVersion(version) && i < NumAlign(version) && n <= NumAlign(version)
    ensures MarksInside(m, Size(version))
  {
    if n == 0 then []
    else
      var j, last := n - 1, NumAlign(version) - 1;
      var p := AlignPositions(version);
      AlignPositionsFit(version, i);
      AlignPositionsFit(version, j);
      AlignmentLine(version, i, n - 1)
      + (if (i == 0 && j == 0) || (i == 0 && j == last) || (i == last && j == 0) then []
         else AlignmentMarks(Size(version), p[i], p[j], 5))
  }

  function AllAlignmentMarks(version: nat, n: nat): (m: seq<Mark>)
    requires IsVersion(version) && n <= NumAlign(version)
    ensures MarksInside(m, Size(version))
  {
    if n == 0 then []
    else AllAlignmentMarks(version, n - 1) + AlignmentLine(version, n - 1, NumAlign(version))
  }

  // ---------- Format and version information ----------

  function GetBit(x: bv32, i: nat): bool
    requires i < 32
  {
    (x >> i) & 1 != 0
  }

  function FormatLevel(ecl: Ecc): bv32 {
    match ecl
    case Low => 1
    case Medium => 0
    case Quartile => 3
    case High => 2
  }

  function FormatData(ecl: Ecc, mask: bv32): bv32 { (FormatLevel(ecl) << 3) | mask }

  function FormatStep(rem: bv32): bv32 { (rem << 1) ^ ((rem >> 9) * 0x537) }

  function FormatRemainder(data: bv32, n: nat): bv32 {
    if n == 0 then data else FormatStep(FormatRemainder(data, n - 1))
  }

  function FormatWord(data: bv32, rem: bv32): bv32 { ((data << 10) | rem) ^ 0x5412 }

  function FormatBits(ecl: Ecc, mask: bv32): bv32 {
    FormatWord(FormatData(ecl, mask), FormatRemainder(FormatData(ecl, mask), 10))
  }

  function FirstCopy(size: nat, bits: bv32): (m: seq<Mark>)
    ensures size >= 21 ==> MarksInside(m, size)
  {
    seq(6, i requires 0 <= i < 6 => Mark(Cell(8, i), GetBit(bits, i)))
    + [Mark(Cell(8, 7), GetBit(bits, 6)), Mark(Cell(8, 8), GetBit(bits, 7)), Mark(Cell(7, 8), GetBit(bits, 8))]
    + seq(6, i requires 0 <= i < 6 => Mark(Cell(5 - i, 8), GetBit(bits, 9 + i)))
  }

  function SecondCopy(size: nat, bits: bv32): (m: seq<Mark>)
    requires size >= 21
    ensures MarksInside(m, size)
  {
    seq(8, i requires 0 <= i < 8 => Mark(Cell(size - 1 - i, 8), GetBit(bits, i)))
    + seq(7, i requires 0 <= i < 7 => Mark(Cell(8, size - 7 + i), GetBit(bits, 8 + i)))
    + [Mark(Cell(8, size - 8), true)]
  }

  function FormatMarks(size: nat, bits: bv32): (m: seq<Mark>)
    requires size >= 21
    ensures MarksInside(m, size)
  {
    FirstCopy(size, bits) + SecondCopy(size, bits)
  }

  function VersionStep(rem: bv32): bv32 { (rem << 1) ^ ((rem >> 11) * 0x1F25) }

  function VersionRemainder(version: bv32, n: nat): bv32 {
    if n == 0 then version else VersionStep(VersionRemainder(version, n - 1))
  }

  function VersionWord(version: bv32, rem: bv32): bv32 { (version << 12) | rem }

  function VersionBits(version: nat): bv32
    requires version <= 40
  {
    var v := version as bv32;
    VersionWord(v, VersionRemainder(v, 12))
  }

  function VersionCells(size: nat, bits: bv32, n: nat): (m: seq<Mark>)
    requires size >= 21 && n <= 18
    ensures MarksInside(m, size)
  {
    if n == 0 then []
    else
      var i := n - 1;
      var a, b := size - 11 + i % 3, i / 3;
      VersionCells(size, bits, n - 1) + [Mark(Cell(a, b), GetBit(bits, i))] + [Mark(Cell(b, a), GetBit(bits, i))]
  }

  function VersionMarks(version: nat): (m: seq<Mark>)
    requires IsVersion(version)
    ensures MarksInside(m, Size(version))
  {
    if version < 7 then [] else VersionCells(Size(version), VersionBits(version), 18)
  }

  // ---------- All function modules ----------

  /** Timing, finder and alignment patterns: the marks that do not carry format or version bits. */
  function FixedMarks(version: nat): (m: seq<Mark>)
    requires IsVersion(version)
    ensures MarksInside(m, Size(version))
  {
    var size := Size(version);
    TimingMarks(size, size)
    + FinderMarks(size, 3, 3, 9) + FinderMarks(size, size - 4, 3, 9) + FinderMarks(size, 3, size - 4, 9)
    + AllAlignmentMarks(version, NumAlign(version))
  }

  /** Everything drawn before the data, in drawing order. */
  function FunctionMarks(version: nat, ecl: Ecc): (m: seq<Mark>)
    requires IsVersion(version)
    ensures MarksInside(m, Size(version))
  {
    FixedMarks(version) + FormatMarks(Size(version), FormatBits(ecl, 0)) + VersionMarks(version)
  }

  function FunctionGrid(version: nat, ecl: Ecc): (isFunction: Grid)
    requires IsVersion(version)
    ensures Square(isFunction, Size(version))
  {
    Reserve(Blank(Size(version)), FunctionMarks(version, ecl))
  }
}
