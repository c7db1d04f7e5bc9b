/** Mask patterns on data modules, and how they interact with drawing function modules. */
module QrMask {
  import opened QrGrid
  import opened QrPatterns

  /** The mask pattern inverts the module at (x, y). */
  predicate Inverts(mask: nat, x: nat, y: nat) {
    if mask == 0 then (x + y) % 2 == 0
    else if mask == 1 then y % 2 == 0
    else if mask == 2 then x % 3 == 0
    else if mask == 3 then (x + y) % 3 == 0
    else if mask == 4 then (x / 3 + y / 2) % 2 == 0
    else if mask == 5 then x * y % 2 + x * y % 3 == 0
    else if mask == 6 then (x * y % 2 + x * y % 3) % 2 == 0
    else ((x + y) % 2 + x * y % 3) % 2 == 0
  }

  /** The grid with one mask applied to all modules that are not function modules. */
  function Masked(g: Grid, isFunction: Grid, mask: nat): (r: Grid)
    requires Square(g, |g|) && Square(isFunction, |g|)
    ensures Square(r, |g|)
    ensures forall c :: Inside(c, |g|) ==> At(r, c) == (At(g, c) != (Inverts(mask, c.x, c.y) && !At(isFunction, c)))
  {
    seq(|g|, y requires 0 <= y < |g| =>
      seq(|g|, x requires 0 <= x < |g| => g[y][x] != (Inverts(mask, x, y) && !isFunction[y][x])))
  }

  /** Masking twice changes nothing. */
  lemma MaskTwice(g: Grid, isFunction: Grid, mask: nat)
    requires Square(g, |g|) && Square(isFunction, |g|)
    ensures Masked(Masked(g, isFunction, mask), isFunction, mask) == g
  {
    hide Inverts, Masked;
    GridEquality(Masked(Masked(g, isFunction, mask), isFunction, mask), g);
  }

  predicate OnFunction(marks: seq<Mark>, isFunction: Grid)
    requires Square(isFunction, |isFunction|) && MarksInside(marks, |isFunction|)
  {
    forall i :: 0 <= i < |marks| ==> At(isFunction, marks[i].cell)
  }

  /** Masks and function modules do not touch each other. */
  lemma {:induction false} MaskThenDraw(g: Grid, isFunction: Grid, mask: nat, marks: seq<Mark>)
    requires Square(g, |g|) && Square(isFunction, |g|) && MarksInside(marks, |g|) && OnFunction(marks, isFunction)
    ensures Masked(DrawMarks(g, marks), isFunction, mask) == DrawMarks(Masked(g, isFunction, mask), marks)
  {
    hide Inverts, Masked;
    if marks != [] {
      var n := |marks| - 1;
      MaskThenDraw(g, isFunction, mask, marks[..n]);
      var before := DrawMarks(g, marks[..n]);
      var m := marks[n];
      assert At(isFunction, m.cell);
      GridEquality(Masked(Put(before, m.cell, m.dark), isFunction, mask),
          Put(Masked(before, isFunction, mask), m.cell, m.dark));
    }
  }

  predicate SameCells(a: seq<Mark>, b: seq<Mark>) {
    |a| == |b| && forall i :: 0 <= i < |a| ==> a[i].cell == b[i].cell
  }

  /** What a cell shows after drawing: the last mark on it, or else what was there. */
  lemma {:induction false} DrawDependsOnLast(g: Grid, h: Grid, marks: seq<Mark>, c: Cell)
    requires Square(g, |g|) && Square(h, |g|) && MarksInside(marks, |g|) && Inside(c, |g|)
    requires Marked(marks, c) || At(g, c) == At(h, c)
    ensures At(DrawMarks(g, marks), c) == At(DrawMarks(h, marks), c)
  {
    if marks != [] {
      var n := |marks| - 1;
      if marks[n].cell != c {
        if Marked(marks, c) {
          var i :| 0 <= i < |marks| && marks[i].cell == c;
          assert marks[..n][i].cell == c;
        }
        DrawDependsOnLast(g, h, marks[..n], c);
      }
    }
  }

  /** Drawing on the same cells again replaces what was drawn first. */
  lemma DrawReplaces(g: Grid, a: seq<Mark>, b: seq<Mark>)
    requires Square(g, |g|) && MarksInside(a, |g|) && MarksInside(b, |g|) && SameCells(a, b)
    ensures DrawMarks(DrawMarks(g, a), b) == DrawMarks(g, b)
  {
    forall c | Inside(c, |g|)
      ensures At(DrawMarks(DrawMarks(g, a), b), c) == At(DrawMarks(g, b), c)
    {
      if Marked(a, c) {
        var i :| 0 <= i < |a| && a[i].cell == c;
        assert b[i].cell == c;
      } else {
        ReserveIsMarked(g, a, c);
      }
      DrawDependsOnLast(DrawMarks(g, a), g, b, c);
    }
    GridEquality(DrawMarks(DrawMarks(g, a), b), DrawMarks(g, b));
  }

  /** A mark that no later mark overwrites shows its color. */
  lemma {:induction false} DrawShows(g: Grid, marks: seq<Mark>, i: nat)
    requires Square(g, |g|) && MarksInside(marks, |g|) && i < |marks|
    requires forall j :: i < j < |marks| ==> marks[j].cell != marks[i].cell
    ensures At(DrawMarks(g, marks), marks[i].cell) == marks[i].dark
  {
    var n := |marks| - 1;
    if i < n {
      assert marks[n].cell != marks[i].cell;
      assert forall j :: i < j < n ==> marks[..n][j].cell != marks[..n][i].cell;
      DrawShows(g, marks[..n], i);
    }
  }
}
