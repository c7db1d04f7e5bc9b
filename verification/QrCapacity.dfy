/** Counting: the region of the function modules and its exact size. */
module QrCapacity {
  import opened QrGrid
  import opened QrPatterns

  /** Data modules of a version, remainder bits included. */
  function NumRawDataModules(version: nat): int {
    var result := (16 * version + 128) * version + 64;
    if version >= 2 then
      var numAlign := version / 7 + 2;
      result - ((25 * numAlign - 10) * numAlign - 55) - (if version >= 7 then 36 else 0)
    else result
  }

  // ---------- Sets of cells ----------

  function Row(x: nat, y: nat, w: nat): (s: set<Cell>)
    ensures |s| == w && forall c :: c in s <==> x <= c.x < x + w && c.y == y
  {
    if w == 0 then {} else Row(x, y, w - 1) + {Cell(x + w - 1, y)}
  }

  function Rect(x: nat, y: nat, w: nat, h: nat): (s: set<Cell>)
    ensures |s| == w * h && forall c :: c in s <==> x <= c.x < x + w && y <= c.y < y + h
    decreases h
  {
    if h == 0 then {}
    else
      assert Rect(x, y, w, h - 1) !! Row(x, y + h - 1, w);
      assert w * h == w * (h - 1) + w;
      Rect(x, y, w, h - 1) + Row(x, y + h - 1, w)
  }

  function Union(sets: seq<set<Cell>>): (u: set<Cell>)
    ensures forall i, c :: 0 <= i < |sets| && c in sets[i] ==> c in u
  {
    if sets == [] then {} else Union(sets[..|sets| - 1]) + sets[|sets| - 1]
  }

  ghost predicate Apart(sets: seq<set<Cell>>) {
    forall i, j :: 0 <= i < j < |sets| ==> sets[i] !! sets[j]
  }

  lemma NoneShared(a: set<Cell>, b: set<Cell>)
    requires forall c :: c in a ==> c !in b
    ensures a !! b
  {
    assert a * b == {};
  }

  lemma {:induction false} UnionOnly(sets: seq<set<Cell>>, c: Cell)
    requires c in Union(sets)
    ensures exists i :: 0 <= i < |sets| && c in sets[i]
  {
    if sets != [] {
      var n := |sets| - 1;
      if c !in sets[n] {
        UnionOnly(sets[..n], c);
        var i :| 0 <= i < n && c in sets[..n][i];
        assert c in sets[i];
      }
    }
  }

  function Total(sets: seq<set<Cell>>): nat {
    if sets == [] then 0 else |sets[0]| + Total(sets[1..])
  }

  lemma {:induction false} TotalAppend(sets: seq<set<Cell>>, s: set<Cell>)
    ensures Total(sets + [s]) == Total(sets) + |s|
  {
    if sets != [] {
      TotalAppend(sets[1..], s);
      assert (sets + [s])[1..] == sets[1..] + [s];
    } else {
      assert Total([s]) == |s| + Total([s][1..]);
    }
  }

  lemma {:induction false} UnionOfApart(sets: seq<set<Cell>>)
    requires Apart(sets)
    ensures |Union(sets)| == Total(sets)
  {
    if sets != [] {
      var n := |sets| - 1;
      var before := sets[..n];
      UnionOfApart(before);
      TotalAppend(before, sets[n]);
      assert before + [sets[n]] == sets;
      assert Union(before) !! sets[n] by {
        forall c | c in Union(before)
          ensures c !in sets[n]
        {
          UnionOnly(before, c);
        }
      }
    }
  }

  lemma {:induction false} TotalOfEqual(sets: seq<set<Cell>>, each: nat)
    requires forall i :: 0 <= i < |sets| ==> |sets[i]| == each
    ensures Total(sets) == |sets| * each
  {
    if sets != [] {
      TotalOfEqual(sets[1..], each);
      assert |sets| * each == each + (|sets| - 1) * each;
    }
  }

  // ---------- Alignment patterns off the timing lines ----------

  /** c belongs to the alignment pattern centered at (p[i], p[j]). */
  predicate OnAlignment(version: nat, i: nat, j: nat, c: Cell)
    requires version >= 1 && i < NumAlign(version) && j < NumAlign(version)
  {
    var p := AlignPositions(version);
    p[i] - 2 <= c.x <= p[i] + 2 && p[j] - 2 <= c.y <= p[j] + 2
  }

  predicate Inner(version: nat, i: nat) {
    2 <= version <= 40 && 1 <= i < NumAlign(version)
  }

  /** The 5x5 square of the alignment pattern centered at (p[i], p[j]). */
  function InnerSquare(version: nat, i: nat, j: nat): (s: set<Cell>)
    requires Inner(version, i) && Inner(version, j)
    ensures |s| == 25
    ensures forall c :: OnAlignment(version, i, j, c) ==> c in s
  {
    AlignPositionsFit(version, i);
    AlignPositionsFit(version, j);
    Rect(AlignPositions(version)[i] - 2, AlignPositions(version)[j] - 2, 5, 5)
  }

  lemma PositionsApart(version: nat, i: nat, j: nat)
    requires 2 <= version <= 40 && i < j < NumAlign(version)
    ensures AlignPositions(version)[i] + 12 <= AlignPositions(version)[j]
  {
    AlignPositionsFit(version, j);
    if i > 0 {
      var n, step := NumAlign(version), AlignStep(version);
      StepBound(version, 1);
      assert (n - 1 - i) * step == (n - 1 - j) * step + (j - i) * step;
      assert (j - i) * step >= step;
    }
  }

  /** The cells of two alignment patterns differ as their centers do. */
  lemma InnerCell(version: nat, i: nat, j: nat, c: Cell)
    requires Inner(version, i) && Inner(version, j)
    ensures c in InnerSquare(version, i, j) <==> OnAlignment(version, i, j, c)
    ensures c in InnerSquare(version, i, j) ==> c.x >= 16 && c.y >= 16
  {
    hide AlignPositions, NumAlign, Size, Rect;
    AlignPositionsFit(version, i);
    AlignPositionsFit(version, j);
  }

  function LineSquares(version: nat, i: nat): (r: seq<set<Cell>>)
    requires Inner(version, i)
    ensures |r| == NumAlign(version) - 1
  {
    seq(NumAlign(version) - 1, k requires 0 <= k < NumAlign(version) - 1 => InnerSquare(version, i, k + 1))
  }

  lemma LineSquaresAt(version: nat, i: nat, k: nat)
    requires Inner(version, i) && k < NumAlign(version) - 1
    ensures LineSquares(version, i)[k] == InnerSquare(version, i, k + 1)
  {
    hide InnerSquare, NumAlign;
  }

  function InnerLine(version: nat, i: nat): set<Cell>
    requires Inner(version, i)
  {
    Union(LineSquares(version, i))
  }

  lemma TwoSquares(version: nat, i: nat, k: nat, l: nat)
    requires Inner(version, i) && Inner(version, k) && Inner(version, l) && k < l
    ensures InnerSquare(version, i, k) !! InnerSquare(version, i, l)
  {
    hide AlignPositions, NumAlign, InnerSquare;
    PositionsApart(version, k, l);
    forall c | c in InnerSquare(version, i, k)
      ensures c !in InnerSquare(version, i, l)
    {
      InnerCell(version, i, k, c);
      InnerCell(version, i, l, c);
    }
    NoneShared(InnerSquare(version, i, k), InnerSquare(version, i, l));
  }

  lemma LineApart(version: nat, i: nat)
    requires Inner(version, i)
    ensures Apart(LineSquares(version, i))
  {
    hide NumAlign, InnerSquare, LineSquares;
    var r := LineSquares(version, i);
    forall k, l | 0 <= k < l < |r|
      ensures r[k] !! r[l]
    {
      LineSquaresAt(version, i, k);
      LineSquaresAt(version, i, l);
      TwoSquares(version, i, k + 1, l + 1);
    }
  }

  lemma LineSize(version: nat, i: nat)
    requires Inner(version, i)
    ensures |InnerLine(version, i)| == (NumAlign(version) - 1) * 25
  {
    hide NumAlign, Union, InnerSquare, LineSquares;
    var r := LineSquares(version, i);
    LineApart(version, i);
    forall k | 0 <= k < |r|
      ensures |r[k]| == 25
    {
      LineSquaresAt(version, i, k);
    }
    UnionOfApart(r);
    TotalOfEqual(r, 25);
  }

  lemma LineCell(version: nat, i: nat, c: Cell)
    requires Inner(version, i) && c in InnerLine(version, i)
    ensures exists j :: 1 <= j < NumAlign(version) && OnAlignment(version, i, j, c)
    ensures c.x >= 16 && c.y >= 16
  {
    hide NumAlign, Union, InnerSquare, LineSquares, OnAlignment;
    var r := LineSquares(version, i);
    UnionOnly(r, c);
    var k :| 0 <= k < |r| && c in r[k];
    LineSquaresAt(version, i, k);
    InnerCell(version, i, k + 1, c);
  }

  lemma InnerLineHolds(version: nat, i: nat)
    requires Inner(version, i)
    ensures forall j, c :: 1 <= j < NumAlign(version) && OnAlignment(version, i, j, c) ==> c in InnerLine(version, i)
  {
    hide InnerSquare, Union, OnAlignment, NumAlign, LineSquares;
    forall j, c | 1 <= j < NumAlign(version) && OnAlignment(version, i, j, c)
      ensures c in InnerLine(version, i)
    {
      LineSquaresAt(version, i, j - 1);
      assert c in LineSquares(version, i)[j - 1];
    }
  }

  function InnerLines(version: nat): (r: seq<set<Cell>>)
    requires 2 <= version <= 40
    ensures |r| == NumAlign(version) - 1
  {
    seq(NumAlign(version) - 1, k requires 0 <= k < NumAlign(version) - 1 => InnerLine(version, k + 1))
  }

  lemma InnerLinesAt(version: nat, k: nat)
    requires 2 <= version <= 40 && k < NumAlign(version) - 1
    ensures InnerLines(version)[k] == InnerLine(version, k + 1)
  {
    hide InnerLine, NumAlign;
  }

  function InnerSquares(version: nat): set<Cell>
    requires 2 <= version <= 40
  {
    Union(InnerLines(version))
  }

  lemma TwoLines(version: nat, k: nat, l: nat)
    requires Inner(version, k) && Inner(version, l) && k < l
    ensures InnerLine(version, k) !! InnerLine(version, l)
  {
    hide AlignPositions, NumAlign, InnerLine;
    PositionsApart(version, k, l);
    forall c | c in InnerLine(version, k)
      ensures c !in InnerLine(version, l)
    {
      LineCell(version, k, c);
      if c in InnerLine(version, l) {
        LineCell(version, l, c);
      }
    }
    NoneShared(InnerLine(version, k), InnerLine(version, l));
  }

  lemma LinesApart(version: nat)
    requires 2 <= version <= 40
    ensures Apart(InnerLines(version))
  {
    hide NumAlign, InnerLine, InnerLines;
    var r := InnerLines(version);
    forall k, l | 0 <= k < l < |r|
      ensures r[k] !! r[l]
    {
      InnerLinesAt(version, k);
      InnerLinesAt(version, l);
      TwoLines(version, k + 1, l + 1);
    }
  }

  lemma AtLeastTwo(version: nat)
    requires 2 <= version <= 40
    ensures 2 <= NumAlign(version) <= 7
  {}

  lemma InnerSize(version: nat)
    requires 2 <= version <= 40
    ensures |InnerSquares(version)| == (NumAlign(version) - 1) * ((NumAlign(version) - 1) * 25)
  {
    hide NumAlign, Union, InnerLine, InnerLines, Apart, Total;
    AtLeastTwo(version);
    var n := NumAlign(version);
    var r := InnerLines(version);
    LinesApart(version);
    forall k | 0 <= k < |r|
      ensures |r[k]| == (n - 1) * 25
    {
      InnerLinesAt(version, k);
      LineSize(version, k + 1);
    }
    UnionOfApart(r);
    TotalOfEqual(r, (n - 1) * 25);
  }

  /** c belongs to an alignment pattern off the timing lines. */
  ghost predicate OnInner(version: nat, c: Cell)
    requires 2 <= version <= 40
  {
    exists i, j :: 1 <= i < NumAlign(version) && 1 <= j < NumAlign(version) && OnAlignment(version, i, j, c)
  }

  lemma InnerSquaresCell(version: nat, c: Cell)
    requires 2 <= version <= 40 && c in InnerSquares(version)
    ensures OnInner(version, c) && c.x >= 16 && c.y >= 16
  {
    hide NumAlign, Union, InnerLine, InnerLines, OnAlignment;
    AtLeastTwo(version);
    var r := InnerLines(version);
    UnionOnly(r, c);
    var k :| 0 <= k < |r| && c in r[k];
    InnerLinesAt(version, k);
    LineCell(version, k + 1, c);
  }

  lemma InnerSquaresHold(version: nat)
    requires 2 <= version <= 40
    ensures forall i, j, c ::
      1 <= i < NumAlign(version) && 1 <= j < NumAlign(version) && OnAlignment(version, i, j, c) ==>
      c in InnerSquares(version)
  {
    hide InnerLine, Union, OnAlignment, NumAlign, InnerLines;
    forall i, j, c | 1 <= i < NumAlign(version) && 1 <= j < NumAlign(version) && OnAlignment(version, i, j, c)
      ensures c in InnerSquares(version)
    {
      InnerLineHolds(version, i);
      InnerLinesAt(version, i - 1);
      assert c in InnerLines(version)[i - 1];
    }
  }

  // ---------- Alignment patterns on the timing lines ----------

  /** Two squares on the timing lines, without the timing modules themselves. */
  function EdgeSquare(version: nat, k: nat): (s: set<Cell>)
    requires Inner(version, k)
  {
    AlignPositionsFit(version, k);
    var q := AlignPositions(version)[k] - 2;
    Rect(4, q, 2, 5) + Rect(7, q, 2, 5) + (Rect(q, 4, 5, 2) + Rect(q, 7, 5, 2))
  }

  predicate OffLine(a: int) { a == 4 || a == 5 || a == 7 || a == 8 }

  /** c belongs to the k-th alignment pattern of the timing column or row, but not to that line. */
  predicate OnEdge(version: nat, k: nat, c: Cell)
    requires version >= 1 && k < NumAlign(version)
  {
    var q := AlignPositions(version)[k];
    (OffLine(c.x) && q - 2 <= c.y <= q + 2) || (OffLine(c.y) && q - 2 <= c.x <= q + 2)
  }

  lemma EdgeCell(version: nat, k: nat, c: Cell)
    requires Inner(version, k)
    ensures c in EdgeSquare(version, k) <==> OnEdge(version, k, c)
  {
    hide AlignPositions, NumAlign, Size, Rect;
    AlignPositionsFit(version, k);
  }

  lemma EdgeSize(version: nat, k: nat)
    requires Inner(version, k)
    ensures |EdgeSquare(version, k)| == 40
  {
    hide AlignPositions, NumAlign, Size, Rect;
    AlignPositionsFit(version, k);
    var q := AlignPositions(version)[k] - 2;
    var a, b, c, d := Rect(4, q, 2, 5), Rect(7, q, 2, 5), Rect(q, 4, 5, 2), Rect(q, 7, 5, 2);
    NoneShared(a, b);
    NoneShared(c, d);
    NoneShared(a + b, c + d);
  }

  lemma EdgeSquareHolds(version: nat, k: nat, c: Cell)
    requires Inner(version, k)
    ensures c.x != 6 && OnAlignment(version, 0, k, c) ==> c in EdgeSquare(version, k)
    ensures c.y != 6 && OnAlignment(version, k, 0, c) ==> c in EdgeSquare(version, k)
  {
    assert AlignPositions(version)[0] == 6;
    hide AlignPositions, NumAlign, EdgeSquare;
    EdgeCell(version, k, c);
  }

  function EdgeList(version: nat): (r: seq<set<Cell>>)
    requires 2 <= version <= 40
    ensures |r| == NumAlign(version) - 2
  {
    AtLeastTwo(version);
    seq(NumAlign(version) - 2, k requires 0 <= k < NumAlign(version) - 2 => EdgeSquare(version, k + 1))
  }

  lemma EdgeListAt(version: nat, k: nat)
    requires 2 <= version <= 40 && k < NumAlign(version) - 2
    ensures EdgeList(version)[k] == EdgeSquare(version, k + 1)
  {
    hide EdgeSquare, NumAlign;
  }

  function EdgeSquares(version: nat): set<Cell>
    requires 2 <= version <= 40
  {
    Union(EdgeList(version))
  }

  lemma TwoEdges(version: nat, k: nat, l: nat)
    requires Inner(version, k) && Inner(version, l) && k < l
    ensures EdgeSquare(version, k) !! EdgeSquare(version, l)
  {
    hide AlignPositions, NumAlign, EdgeSquare;
    PositionsApart(version, k, l);
    AlignPositionsFit(version, k);
    forall c | c in EdgeSquare(version, k)
      ensures c !in EdgeSquare(version, l)
    {
      EdgeCell(version, k, c);
      EdgeCell(version, l, c);
    }
    NoneShared(EdgeSquare(version, k), EdgeSquare(version, l));
  }

  lemma EdgesApart(version: nat)
    requires 2 <= version <= 40
    ensures Apart(EdgeList(version))
  {
    hide NumAlign, EdgeSquare, EdgeList;
    var r := EdgeList(version);
    forall k, l | 0 <= k < l < |r|
      ensures r[k] !! r[l]
    {
      EdgeListAt(version, k);
      EdgeListAt(version, l);
      TwoEdges(version, k + 1, l + 1);
    }
  }

  lemma EdgesSize(version: nat)
    requires 2 <= version <= 40
    ensures |EdgeSquares(version)| == (NumAlign(version) - 2) * 40
  {
    hide NumAlign, Union, EdgeSquare, EdgeList, Apart, Total;
    AtLeastTwo(version);
    var r := EdgeList(version);
    EdgesApart(version);
    forall k | 0 <= k < |r|
      ensures |r[k]| == 40
    {
      EdgeListAt(version, k);
      EdgeSize(version, k + 1);
    }
    UnionOfApart(r);
    TotalOfEqual(r, 40);
  }

  ghost predicate OnSomeEdge(version: nat, c: Cell)
    requires 2 <= version <= 40
  {
    exists k :: 1 <= k < NumAlign(version) - 1 && OnEdge(version, k, c)
  }

  lemma EdgeSquaresCell(version: nat, c: Cell)
    requires 2 <= version <= 40 && c in EdgeSquares(version)
    ensures OnSomeEdge(version, c)
    ensures (OffLine(c.x) && 16 <= c.y < Size(version) - 16) || (OffLine(c.y) && 16 <= c.x < Size(version) - 16)
  {
    hide NumAlign, Union, EdgeSquare, EdgeList, AlignPositions, Size;
    AtLeastTwo(version);
    var r := EdgeList(version);
    UnionOnly(r, c);
    var k :| 0 <= k < |r| && c in r[k];
    EdgeListAt(version, k);
    EdgeCell(version, k + 1, c);
    AlignPositionsFit(version, k + 1);
  }

  lemma EdgeSquaresHold(version: nat)
    requires 2 <= version <= 40
    ensures forall k, c: Cell :: 1 <= k < NumAlign(version) - 1 && c.x != 6 && OnAlignment(version, 0, k, c) ==>
      c in EdgeSquares(version)
    ensures forall k, c: Cell :: 1 <= k < NumAlign(version) - 1 && c.y != 6 && OnAlignment(version, k, 0, c) ==>
      c in EdgeSquares(version)
  {
    hide EdgeSquare, Union, OnAlignment, NumAlign, EdgeList;
    forall k, c: Cell | 1 <= k < NumAlign(version) - 1
      && ((c.x != 6 && OnAlignment(version, 0, k, c)) || (c.y != 6 && OnAlignment(version, k, 0, c)))
      ensures c in EdgeSquares(version)
    {
      EdgeSquareHolds(version, k, c);
      EdgeListAt(version, k - 1);
      assert c in EdgeList(version)[k - 1];
    }
  }

  // ---------- Finder patterns, timing lines, format and version modules ----------

  /** Finder patterns with their borders, timing lines between them, format modules. */
  function CornerRects(size: nat): (r: seq<set<Cell>>)
    requires size >= 21
    ensures |r| == 11
  {
    [Rect(0, 0, 8, 8), Rect(size - 8, 0, 8, 8), Rect(0, size - 8, 8, 8),
     Rect(8, 6, size - 16, 1), Rect(6, 8, 1, size - 16),
     Rect(8, 0, 1, 6), Rect(8, 7, 1, 2), Rect(7, 8, 1, 1), Rect(0, 8, 6, 1),
     Rect(size - 8, 8, 8, 1), Rect(8, size - 8, 1, 8)]
  }

  /** The corner rectangle that holds c, if any. */
  function CornerOf(size: nat, c: Cell): int {
    if c.x < 8 && c.y < 8 && c.x != 8 then 0
    else if c.y < 8 && c.x >= size - 8 then 1
    else if c.x < 8 && c.y >= size - 8 then 2
    else if c.y == 6 then 3
    else if c.x == 6 then 4
    else if c.x == 8 && c.y < 6 then 5
    else if c.x == 8 && c.y < 9 then 6
    else if c.x == 7 then 7
    else if c.x < 6 then 8
    else if c.y == 8 then 9
    else 10
  }

  lemma CornerIsUnique(size: nat, k: nat, c: Cell)
    requires size >= 21 && k < 11 && c in CornerRects(size)[k]
    ensures CornerOf(size, c) == k
  {
    hide Rect;
  }

  lemma TwoCorners(size: nat, i: nat, j: nat)
    requires size >= 21 && i < j < 11
    ensures CornerRects(size)[i] !! CornerRects(size)[j]
  {
    hide Rect;
    var r := CornerRects(size);
    hide CornerRects, CornerOf;
    forall c | c in r[i]
      ensures c !in r[j]
    {
      CornerIsUnique(size, i, c);
      if c in r[j] {
        CornerIsUnique(size, j, c);
      }
    }
    NoneShared(r[i], r[j]);
  }

  lemma CornersApart(size: nat)
    requires size >= 21
    ensures Apart(CornerRects(size))
  {
    hide Rect;
    var r := CornerRects(size);
    hide CornerRects;
    forall i, j | 0 <= i < j < |r|
      ensures r[i] !! r[j]
    {
      TwoCorners(size, i, j);
    }
  }

  lemma CornersTotal(size: nat)
    requires size >= 21
    ensures Total(CornerRects(size)) == 192 + 2 * (size - 16) + 31
  {
    hide Rect;
    var r := CornerRects(size);
    assert Total(r[11..]) == 0;
    assert Total(r[10..]) == 8 + Total(r[11..]) by { assert r[10..][1..] == r[11..]; }
    assert Total(r[9..]) == 8 + Total(r[10..]) by { assert r[9..][1..] == r[10..]; }
    assert Total(r[8..]) == 6 + Total(r[9..]) by { assert r[8..][1..] == r[9..]; }
    assert Total(r[7..]) == 1 + Total(r[8..]) by { assert r[7..][1..] == r[8..]; }
    assert Total(r[6..]) == 2 + Total(r[7..]) by { assert r[6..][1..] == r[7..]; }
    assert Total(r[5..]) == 6 + Total(r[6..]) by { assert r[5..][1..] == r[6..]; }
    assert Total(r[4..]) == size - 16 + Total(r[5..]) by { assert r[4..][1..] == r[5..]; }
    assert Total(r[3..]) == size - 16 + Total(r[4..]) by { assert r[3..][1..] == r[4..]; }
    assert Total(r[2..]) == 64 + Total(r[3..]) by { assert r[2..][1..] == r[3..]; }
    assert Total(r[1..]) == 64 + Total(r[2..]) by { assert r[1..][1..] == r[2..]; }
  }

  ghost predicate OnCorner(size: nat, c: Cell)
    requires size >= 21
  {
    exists k :: 0 <= k < 11 && c in CornerRects(size)[k]
  }

  lemma CornerCell(size: nat, c: Cell)
    requires size >= 21 && c in Union(CornerRects(size))
    ensures OnCorner(size, c)
    ensures c.y >= 16 && OffLine(c.x) ==> c.y >= size - 8
    ensures c.x >= 16 && OffLine(c.y) ==> c.x >= size - 8
    ensures !(c.x >= 16 && c.y >= 16)
    ensures c.y < 6 ==> c.x < 9 || c.x >= size - 8
    ensures c.x < 6 ==> c.y < 9 || c.y >= size - 8
  {
    hide Rect, Union;
    UnionOnly(CornerRects(size), c);
  }

  function VersionRects(size: nat): set<Cell>
    requires size >= 21
  {
    Rect(size - 11, 0, 3, 6) + Rect(0, size - 11, 6, 3)
  }

  lemma VersionRectsCell(size: nat, c: Cell)
    requires size >= 45
    ensures c in VersionRects(size)
       <==> (size - 11 <= c.x < size - 8 && c.y < 6) || (c.x < 6 && size - 11 <= c.y < size - 8)
  {
    hide Rect;
  }

  lemma VersionSize(size: nat)
    requires size >= 45
    ensures |VersionRects(size)| == 36
  {
    hide Rect;
    NoneShared(Rect(size - 11, 0, 3, 6), Rect(0, size - 11, 6, 3));
  }

  // ---------- The region of the function modules ----------

  lemma SizeBound(version: nat)
    requires IsVersion(version)
    ensures 21 <= Size(version) <= 177
  {}

  function CornerRegion(version: nat): set<Cell>
    requires IsVersion(version)
  {
    SizeBound(version);
    Union(CornerRects(Size(version)))
  }

  function AlignRegion(version: nat): set<Cell>
    requires IsVersion(version)
  {
    if version == 1 then {} else InnerSquares(version) + EdgeSquares(version)
  }

  function VersionRegion(version: nat): set<Cell>
    requires IsVersion(version)
  {
    if version < 7 then {} else VersionRects(Size(version))
  }

  function Region(version: nat): set<Cell>
    requires IsVersion(version)
  {
    CornerRegion(version) + AlignRegion(version) + VersionRegion(version)
  }

  lemma AlignSize(version: nat)
    requires 2 <= version <= 40
    ensures |AlignRegion(version)|
      == (NumAlign(version) - 1) * ((NumAlign(version) - 1) * 25) + (NumAlign(version) - 2) * 40
  {
    hide NumAlign, InnerSquares, EdgeSquares, OnInner, OnSomeEdge, Size;
    InnerSize(version);
    EdgesSize(version);
    forall c | c in InnerSquares(version)
      ensures c !in EdgeSquares(version)
    {
      InnerSquaresCell(version, c);
      if c in EdgeSquares(version) {
        EdgeSquaresCell(version, c);
      }
    }
    NoneShared(InnerSquares(version), EdgeSquares(version));
  }

  /** Where the three parts of the region lie. */
  lemma AlignCell(version: nat, c: Cell)
    requires IsVersion(version) && c in AlignRegion(version)
    ensures version >= 2
    ensures || (c.x >= 16 && c.y >= 16)
            || (OffLine(c.x) && 16 <= c.y < Size(version) - 16) || (OffLine(c.y) && 16 <= c.x < Size(version) - 16)
  {
    hide NumAlign, InnerSquares, EdgeSquares, OnInner, OnSomeEdge, Size;
    if c in InnerSquares(version) {
      InnerSquaresCell(version, c);
    } else {
      EdgeSquaresCell(version, c);
    }
  }

  lemma NoAlignment(version: nat)
    requires version == 1
    ensures AlignRegion(version) == {}
  {}

  lemma RegionParts(version: nat)
    requires IsVersion(version)
    ensures CornerRegion(version) !! AlignRegion(version)
    ensures CornerRegion(version) + AlignRegion(version) !! VersionRegion(version)
  {
    hide Union, CornerRects, AlignRegion, VersionRects;
    var size := Size(version);
    var corners := CornerRegion(version);
    forall c | c in corners
      ensures c !in AlignRegion(version)
    {
      CornerCell(size, c);
      if c in AlignRegion(version) {
        AlignCell(version, c);
      }
    }
    NoneShared(corners, AlignRegion(version));
    forall c | c in corners + AlignRegion(version)
      ensures c !in VersionRegion(version)
    {
      if version >= 7 {
        VersionRectsCell(size, c);
        if c in corners {
          CornerCell(size, c);
        } else {
          AlignCell(version, c);
        }
      }
    }
    NoneShared(corners + AlignRegion(version), VersionRegion(version));
  }

  lemma SquareOfSize(version: nat)
    ensures Size(version) * Size(version) == 16 * (version * version) + 136 * version + 289
  {}

  lemma RegionArithmetic(version: nat)
    requires IsVersion(version)
    ensures var n := NumAlign(version);
      Size(version) * Size(version) - NumRawDataModules(version) ==
        192 + 2 * (Size(version) - 16) + 31
        + (if version == 1 then 0 else (n - 1) * ((n - 1) * 25) + (n - 2) * 40) + (if version < 7 then 0 else 36)
  {
    var n := NumAlign(version);
    SquareOfSize(version);
    assert (16 * version + 128) * version == 16 * (version * version) + 128 * version;
    if version >= 2 {
      assert n == 2 || n == 3 || n == 4 || n == 5 || n == 6 || n == 7;
    }
  }

  lemma RegionSize(version: nat)
    requires IsVersion(version)
    ensures |Region(version)| == Size(version) * Size(version) - NumRawDataModules(version)
  {
    hide Union, CornerRects, AlignRegion, VersionRects, NumRawDataModules, NumAlign, Apart;
    SizeBound(version);
    var size := Size(version);
    CornersApart(size);
    UnionOfApart(CornerRects(size));
    CornersTotal(size);
    RegionParts(version);
    if version >= 2 {
      AlignSize(version);
    } else {
      assert |AlignRegion(version)| == 0 by { NoAlignment(version); }
    }
    if version >= 7 {
      VersionSize(size);
    }
    RegionArithmetic(version);
  }
}
