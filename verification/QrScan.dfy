/** The zigzag order in which codewords are laid into a grid: column pairs from right to left,
    alternately upward and downward, passing over column 6. */
module QrScan {
  import opened Arithmetic
  import opened QrGrid

  predicate ScanSize(size: nat) { size >= 7 && size % 2 == 1 }

  function NumPairs(size: nat): nat { size / 2 }

  /** The right column of pair k. */
  function Right(size: nat, k: nat): (right: nat)
    requires ScanSize(size) && k < NumPairs(size)
    ensures 1 <= right < size
  {
    var r := size - 1 - 2 * k;
    if r <= 6 then r - 1 else r
  }

  /** The scan goes upward in this pair. */
  predicate Upward(right: nat) { (right + 1) / 2 % 2 == 0 }

  function ScanCell(size: nat, right: nat, vert: nat, j: nat): Cell
    requires j < 2 && 1 <= right && vert < size
  {
    Cell(right - j, if Upward(right) then size - 1 - vert else vert)
  }

  /** The cells of one pair, up to vertical step n. */
  function PairCells(size: nat, right: nat, n: nat): (cells: seq<Cell>)
    requires 1 <= right < size && n <= size
    ensures |cells| == 2 * n && AllInside(cells, size)
  {
    if n == 0 then []
    else PairCells(size, right, n - 1) + [ScanCell(size, right, n - 1, 0)] + [ScanCell(size, right, n - 1, 1)]
  }

  /** The cells of the first k pairs. */
  function ScanCells(size: nat, k: nat): (cells: seq<Cell>)
    requires ScanSize(size) && k <= NumPairs(size)
    ensures AllInside(cells, size)
  {
    if k == 0 then [] else ScanCells(size, k - 1) + PairCells(size, Right(size, k - 1), size)
  }

  function Scan(size: nat): (cells: seq<Cell>)
    requires ScanSize(size)
    ensures AllInside(cells, size)
  {
    ScanCells(size, NumPairs(size))
  }

  // ---------- The scan visits each cell outside column 6 exactly once ----------

  /** The pair a column belongs to, and its place in the pair. */
  function PairOf(size: nat, x: nat): (k: nat)
    requires ScanSize(size) && x < size && x != 6
    ensures k < NumPairs(size)
  {
    var s := if x < 6 then x + 1 else x;
    (size - 1 - s) / 2
  }

  /** The place of a cell in the scan. */
  function Rank(size: nat, c: Cell): nat
    requires ScanSize(size) && Inside(c, size) && c.x != 6
  {
    var right := Right(size, PairOf(size, c.x));
    var vert := if Upward(right) then size - 1 - c.y else c.y;
    2 * (PairOf(size, c.x) * size) + 2 * vert + (right - c.x)
  }

  lemma PairFacts(size: nat, x: nat)
    requires ScanSize(size) && x < size && x != 6
    ensures PairOf(size, x) < NumPairs(size)
    ensures 0 <= Right(size, PairOf(size, x)) - x <= 1
  {}

  lemma RightFacts(size: nat, k: nat)
    requires ScanSize(size) && k < NumPairs(size)
    ensures Right(size, k) != 6 && Right(size, k) - 1 != 6
    ensures PairOf(size, Right(size, k)) == k && PairOf(size, Right(size, k) - 1) == k
  {}

  lemma {:induction false} PairCellsAt(size: nat, right: nat, n: nat, vert: nat, j: nat)
    requires 1 <= right < size && vert < n <= size && j < 2
    ensures PairCells(size, right, n)[2 * vert + j] == ScanCell(size, right, vert, j)
  {
    if vert < n - 1 {
      PairCellsAt(size, right, n - 1, vert, j);
    }
  }

  lemma {:induction false} ScanLength(size: nat, k: nat)
    requires ScanSize(size) && k <= NumPairs(size)
    ensures |ScanCells(size, k)| == 2 * (k * size)
  {
    if k > 0 {
      ScanLength(size, k - 1);
      MulNext(k - 1, size);
    }
  }

  lemma {:induction false} ScanCellsAt(size: nat, k: nat, pair: nat, vert: nat, j: nat)
    requires ScanSize(size) && pair < k <= NumPairs(size) && vert < size && j < 2
    ensures 2 * (pair * size) + 2 * vert + j < |ScanCells(size, k)|
    ensures ScanCells(size, k)[2 * (pair * size) + 2 * vert + j] == ScanCell(size, Right(size, pair), vert, j)
  {
    hide PairCells, ScanCell, Right;
    ScanLength(size, k - 1);
    if pair < k - 1 {
      ScanCellsAt(size, k - 1, pair, vert, j);
    } else {
      PairCellsAt(size, Right(size, pair), size, vert, j);
    }
  }

  /** Each cell outside column 6 stands at its rank. */
  lemma ScanAtRank(size: nat, c: Cell)
    requires ScanSize(size) && Inside(c, size) && c.x != 6
    ensures Rank(size, c) < |Scan(size)| && Scan(size)[Rank(size, c)] == c
  {
    hide ScanCells;
    PairFacts(size, c.x);
    var k := PairOf(size, c.x);
    var right := Right(size, k);
    var vert := if Upward(right) then size - 1 - c.y else c.y;
    ScanCellsAt(size, NumPairs(size), k, vert, right - c.x);
  }

  lemma {:induction false} PairRanks(size: nat, k: nat, n: nat)
    requires ScanSize(size) && k < NumPairs(size) && n <= size
    ensures forall i :: 0 <= i < 2 * n ==> var c := PairCells(size, Right(size, k), n)[i];
      c.x != 6 && Rank(size, c) == 2 * (k * size) + i
  {
    if n > 0 {
      PairRanks(size, k, n - 1);
      RightFacts(size, k);
    }
  }

  /** Each visited cell lies outside column 6 and is visited at its rank only. */
  lemma {:induction false} ScanRanks(size: nat, k: nat)
    requires ScanSize(size) && k <= NumPairs(size)
    ensures forall i :: 0 <= i < |ScanCells(size, k)| ==>
      ScanCells(size, k)[i].x != 6 && Rank(size, ScanCells(size, k)[i]) == i
  {
    if k > 0 {
      ScanRanks(size, k - 1);
      ScanLength(size, k - 1);
      PairRanks(size, k - 1, size);
    }
  }

  /** The scan is a list without repetition of exactly the cells outside column 6. */
  lemma ScanVisitsOnce(size: nat)
    requires ScanSize(size)
    ensures NoRepeats(Scan(size))
    ensures forall c :: c in Scan(size) <==> Inside(c, size) && c.x != 6
    ensures |Scan(size)| == size * (size - 1)
  {
    hide ScanCells, Rank;
    ScanRanks(size, NumPairs(size));
    ScanLength(size, NumPairs(size));
    Halves(size);
    forall c | Inside(c, size) && c.x != 6
      ensures c in Scan(size)
    {
      ScanAtRank(size, c);
    }
    forall c | c in Scan(size)
      ensures Inside(c, size) && c.x != 6
    {
      var i :| 0 <= i < |Scan(size)| && Scan(size)[i] == c;
    }
    forall i, j | 0 <= i < j < |Scan(size)|
      ensures Scan(size)[i] != Scan(size)[j]
    {
      assert Rank(size, Scan(size)[i]) == i && Rank(size, Scan(size)[j]) == j;
    }
  }

  lemma Halves(size: nat)
    requires size % 2 == 1
    ensures 2 * (size / 2 * size) == size * (size - 1)
  {
    var h := size / 2;
    assert size - 1 == 2 * h;
    assert size * (2 * h) == 2 * (h * size);
  }

  // ---------- The walk, in rows and columns ----------

  lemma ColumnOfPair(size: nat, pair: nat)
    requires ScanSize(size) && size >= 21 && size % 4 == 1 && pair < NumPairs(size)
    ensures Right(size, pair) == if size - 1 - 2 * pair > 6 then size - 1 - 2 * pair else size - 2 - 2 * pair
  {}

  lemma HalfOfColumn(m: int, pair: int)
    ensures (4 * m + 1 - 2 * pair) / 2 == 2 * m - pair && (4 * m - 2 * pair) / 2 == 2 * m - pair
    ensures (2 * m - pair) % 2 == pair % 2
  {
    assert (2 * m - pair) == 2 * (m - pair) + pair;
  }

  lemma Direction(size: nat, pair: nat)
    requires ScanSize(size) && size >= 21 && size % 4 == 1 && pair < NumPairs(size)
    ensures Upward(Right(size, pair)) <==> pair % 2 == 0
  {
    var m := size / 4;
    ColumnOfPair(size, pair);
    HalfOfColumn(m, pair);
    hide Right, NumPairs;
    assert Right(size, pair) + 1 == if size - 1 - 2 * pair > 6 then 4 * m + 1 - 2 * pair else 4 * m - 2 * pair;
  }

  /** The column pair of step i: every pair takes two steps a row. */
  function PairAt(size: nat, i: nat): (pair: nat)
    requires size > 0
    ensures 2 * (pair * size) <= i < 2 * (pair * size) + 2 * size
  {
    if i < 2 * size then 0
    else
      var before := PairAt(size, i - 2 * size);
      MulNext(before, size);
      before + 1
  }

  lemma PairIsUnique(size: nat, i: nat, pair: nat)
    requires size > 0 && 2 * (pair * size) <= i < 2 * (pair * size) + 2 * size
    ensures PairAt(size, i) == pair
  {
    var p := PairAt(size, i);
    hide PairAt;
    if p < pair { PairsBelow(size, p, pair); }
    if pair < p { PairsBelow(size, pair, p); }
  }

  lemma PairsBelow(size: nat, a: nat, b: nat)
    requires a < b
    ensures a * size + size <= b * size
  {
    MulNext(a, size);
    MulMonotone(a + 1, b, size);
  }

  lemma PairInside(size: nat, i: nat)
    requires ScanSize(size) && i < |Scan(size)|
    ensures PairAt(size, i) < NumPairs(size)
  {
    hide PairAt, ScanCells, NumPairs;
    ScanLength(size, NumPairs(size));
    if PairAt(size, i) >= NumPairs(size) {
      MulMonotone(NumPairs(size), PairAt(size, i), size);
    }
  }

  /** The cell at a step, for the sizes of QR Codes: pairs from the right, the first one upward, then
      alternately; column 6 belongs to no pair. */
  lemma WalkAt(size: nat, pair: nat, vert: nat, j: nat)
    requires ScanSize(size) && size >= 21 && size % 4 == 1 && pair < NumPairs(size) && vert < size && j < 2
    ensures 2 * (pair * size) + 2 * vert + j < |Scan(size)|
    ensures var column := if size - 1 - 2 * pair > 6 then size - 1 - 2 * pair else size - 2 - 2 * pair;
      Scan(size)[2 * (pair * size) + 2 * vert + j]
      == Cell(column - j, if pair % 2 == 0 then size - 1 - vert else vert)
  {
    hide ScanCells, Upward;
    ScanCellsAt(size, NumPairs(size), pair, vert, j);
    Direction(size, pair);
    ColumnOfPair(size, pair);
    hide Right, NumPairs;
  }

  /** The scan starts in the lower right corner. */
  lemma ScanStarts(size: nat)
    requires ScanSize(size) && size >= 21 && size % 4 == 1
    ensures |Scan(size)| > 1 && Scan(size)[0] == Cell(size - 1, size - 1) && Scan(size)[1] == Cell(size - 2, size - 1)
  {
    hide Scan;
    WalkAt(size, 0, 0, 0);
    WalkAt(size, 0, 0, 1);
  }

  lemma RowOfStep(size: nat, i: nat)
    requires ScanSize(size) && size >= 21 && size % 4 == 1 && i < |Scan(size)|
    ensures var pair := PairAt(size, i); var vert := (i - 2 * (pair * size)) / 2;
      Scan(size)[i].y == if pair % 2 == 0 then size - 1 - vert else vert
  {
    hide Scan, PairAt, NumPairs;
    PairInside(size, i);
    var pair := PairAt(size, i);
    var step := i - 2 * (pair * size);
    WalkAt(size, pair, step / 2, step % 2);
  }

  lemma NextPairAt(size: nat, i: nat)
    requires size > 0
    ensures var pair := PairAt(size, i);
      if i + 1 < 2 * (pair * size) + 2 * size then PairAt(size, i + 1) == pair
      else PairAt(size, i + 1) == pair + 1 && i + 1 == 2 * ((pair + 1) * size)
  {
    hide PairAt;
    var pair := PairAt(size, i);
    MulNext(pair, size);
    PairIsUnique(size, i + 1, if i + 1 < 2 * (pair * size) + 2 * size then pair else pair + 1);
  }

  /** Each step leads to the same row or to a neighbouring one. */
  lemma ScanNeighbours(size: nat, i: nat)
    requires ScanSize(size) && size >= 21 && size % 4 == 1 && i + 1 < |Scan(size)|
    ensures -1 <= Scan(size)[i + 1].y - Scan(size)[i].y <= 1
  {
    hide Scan, PairAt;
    RowOfStep(size, i);
    RowOfStep(size, i + 1);
    NextPairAt(size, i);
  }

  /** A pair is filled before the next begins, and pairs come from right to left: later cells lie to the left,
      or in the same pair, whose columns differ by one. */
  lemma ScanGoesLeft(size: nat, i: nat, j: nat)
    requires ScanSize(size) && size >= 21 && size % 4 == 1 && i < j < |Scan(size)|
    ensures if PairAt(size, i) == PairAt(size, j) then -1 <= Scan(size)[i].x - Scan(size)[j].x <= 1
            else Scan(size)[j].x < Scan(size)[i].x
  {
    hide Scan, PairAt;
    PairInside(size, i);
    PairInside(size, j);
    var p, q := PairAt(size, i), PairAt(size, j);
    var a, b := i - 2 * (p * size), j - 2 * (q * size);
    WalkAt(size, p, a / 2, a % 2);
    WalkAt(size, q, b / 2, b % 2);
    if q < p { PairsBelow(size, q, p); }
  }
}
