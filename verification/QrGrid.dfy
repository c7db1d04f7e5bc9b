/** Square grids of modules, drawing on them cell by cell, and reading them back. */
module QrGrid {

  type Grid = seq<seq<bool>>

  datatype Cell = Cell(x: nat, y: nat)

  predicate Square(g: Grid, size: nat) {
    |g| == size && forall y :: 0 <= y < size ==> |g[y]| == size
  }

  predicate Inside(c: Cell, size: nat) { c.x < size && c.y < size }

  function At(g: Grid, c: Cell): bool
    requires Square(g, |g|) && Inside(c, |g|)
  {
    g[c.y][c.x]
  }

  function Put(g: Grid, c: Cell, v: bool): (r: Grid)
    requires Square(g, |g|) && Inside(c, |g|)
    ensures Square(r, |g|)
    ensures forall d: Cell :: Inside(d, |g|) ==> At(r, d) == if d == c then v else At(g, d)
  {
    g[c.y := g[c.y][c.x := v]]
  }

  function Blank(size: nat): (g: Grid)
    ensures Square(g, size) && forall c :: Inside(c, size) ==> !At(g, c)
  {
    seq(size, y => seq(size, x => false))
  }

  /** Grids are equal when all their cells are. */
  lemma GridEquality(g: Grid, h: Grid)
    requires Square(g, |g|) && Square(h, |g|)
    requires forall c :: Inside(c, |g|) ==> At(g, c) == At(h, c)
    ensures g == h
  {
    forall y | 0 <= y < |g|
      ensures g[y] == h[y]
    {
      forall x | 0 <= x < |g|
        ensures g[y][x] == h[y][x]
      {
        assert At(g, Cell(x, y)) == At(h, Cell(x, y));
      }
    }
  }

  // ---------- Painting a list of cells ----------

  predicate AllInside(cells: seq<Cell>, size: nat) {
    forall i :: 0 <= i < |cells| ==> Inside(cells[i], size)
  }

  predicate NoRepeats(cells: seq<Cell>) {
    forall i, j :: 0 <= i < j < |cells| ==> cells[i] != cells[j]
  }

  /** Gives the i-th cell the i-th bit, as far as there are bits. */
  function Paint(g: Grid, cells: seq<Cell>, bits: seq<bool>): (r: Grid)
    requires Square(g, |g|) && AllInside(cells, |g|)
    ensures Square(r, |g|)
  {
    if cells == [] then g
    else
      var n := |cells| - 1;
      var before := Paint(g, cells[..n], bits);
      if n < |bits| then Put(before, cells[n], bits[n]) else before
  }

  function ReadCells(g: Grid, cells: seq<Cell>): (bits: seq<bool>)
    requires Square(g, |g|) && AllInside(cells, |g|)
    ensures |bits| == |cells|
  {
    seq(|cells|, i requires 0 <= i < |cells| => At(g, cells[i]))
  }

  lemma {:induction false} PaintElsewhere(g: Grid, cells: seq<Cell>, bits: seq<bool>, c: Cell)
    requires Square(g, |g|) && AllInside(cells, |g|) && Inside(c, |g|)
    requires c !in cells
    ensures At(Paint(g, cells, bits), c) == At(g, c)
  {
    if cells != [] {
      PaintElsewhere(g, cells[..|cells| - 1], bits, c);
    }
  }

  lemma {:induction false} PaintHits(g: Grid, cells: seq<Cell>, bits: seq<bool>, i: nat)
    requires Square(g, |g|) && AllInside(cells, |g|) && NoRepeats(cells)
    requires i < |cells|
    ensures At(Paint(g, cells, bits), cells[i]) == if i < |bits| then bits[i] else At(g, cells[i])
  {
    var n := |cells| - 1;
    if i < n {
      PaintHits(g, cells[..n], bits, i);
    } else {
      assert cells[n] !in cells[..n];
      PaintElsewhere(g, cells[..n], bits, cells[n]);
    }
  }

  /** Painting and reading in the same order gives the bits back. */
  lemma ReadPainted(g: Grid, cells: seq<Cell>, bits: seq<bool>)
    requires Square(g, |g|) && AllInside(cells, |g|) && NoRepeats(cells) && |bits| <= |cells|
    ensures ReadCells(Paint(g, cells, bits), cells)[..|bits|] == bits
  {
    hide Paint;
    forall i | 0 <= i < |bits|
      ensures ReadCells(Paint(g, cells, bits), cells)[i] == bits[i]
    {
      PaintHits(g, cells, bits, i);
    }
  }

  // ---------- Free cells ----------

  /** The cells of a list that are not function modules, in the same order. */
  function FreeCells(cells: seq<Cell>, isFunction: Grid): (free: seq<Cell>)
    requires Square(isFunction, |isFunction|) && AllInside(cells, |isFunction|)
    ensures |free| <= |cells| && AllInside(free, |isFunction|)
    ensures forall c :: c in free <==> c in cells && !At(isFunction, c)
  {
    if cells == [] then []
    else
      var n := |cells| - 1;
      var before := FreeCells(cells[..n], isFunction);
      assert cells == cells[..n] + [cells[n]];
      if At(isFunction, cells[n]) then before else before + [cells[n]]
  }

  lemma {:induction false} FreeNoRepeats(cells: seq<Cell>, isFunction: Grid)
    requires Square(isFunction, |isFunction|) && AllInside(cells, |isFunction|) && NoRepeats(cells)
    ensures NoRepeats(FreeCells(cells, isFunction))
  {
    if cells != [] {
      var n := |cells| - 1;
      FreeNoRepeats(cells[..n], isFunction);
      assert cells[n] !in cells[..n];
    }
  }
}
