/** Splitting data codewords into blocks, adding error correction to each, and interleaving them;
    and how a reader undoes it. */
module QrBlocks {
  import opened Arithmetic
  import opened ReedSolomon
  import opened ReedSolomonCode
  import opened Wrappers

  /** Block parameters: number of blocks, error correction bytes per block, bytes in all. */
  datatype Layout = Layout(numBlocks: nat, eccLen: nat, rawCodewords: nat) {

    predicate Valid() {
      numBlocks >= 1 && 1 <= eccLen <= 255 && eccLen < rawCodewords / numBlocks
    }

    /** Data bytes in a short block; long blocks have one more. */
    function ShortData(): (n: nat)
      requires Valid()
      ensures n >= 1
    {
      rawCodewords / numBlocks - eccLen
    }

    function NumShort(): (n: nat)
      requires Valid()
      ensures 1 <= n <= numBlocks
    {
      numBlocks - rawCodewords % numBlocks
    }

    function DataLength(j: nat): nat
      requires Valid()
    {
      ShortData() + (if j < NumShort() then 0 else 1)
    }

    /** Where the data of block j starts. */
    function Offset(j: nat): nat
      requires Valid()
    {
      j * ShortData() + (if j < NumShort() then 0 else j - NumShort())
    }

    /** The number of data bytes in all blocks. */
    function Capacity(): nat
      requires Valid()
    {
      Offset(numBlocks)
    }

    /** Column `ShortData()` of a short block holds only padding, which is not written. */
    predicate Written(j: nat, column: nat)
      requires Valid()
    {
      j < numBlocks && column <= ShortData() + eccLen && (column != ShortData() || j >= NumShort())
    }

    /** Bytes written before column `column` of block j. */
    function Before(j: nat, column: nat): nat
      requires Valid()
    {
      if column < ShortData() then column * numBlocks + j
      else if column == ShortData() then column * numBlocks + (if j < NumShort() then 0 else j - NumShort())
      else (column - 1) * numBlocks + (numBlocks - NumShort()) + j
    }
  }

  // ---------- Arithmetic of the layout ----------

  /** A quotient and remainder are determined by their number. */
  lemma DivMod(q: nat, b: nat, r: nat)
    requires r < b
    ensures (q * b + r) / b == q && (q * b + r) % b == r
  {
    var n := q * b + r;
    var q', r' := DivModParts(n, b);
    if q < q' {
      MulMonotone(q + 1, q', b);
      MulNext(q, b);
    } else if q' < q {
      MulMonotone(q' + 1, q, b);
      MulNext(q', b);
    }
  }

  lemma DivModParts(n: nat, b: nat) returns (q: nat, r: nat)
    requires b > 0
    ensures q == n / b && r == n % b && n == q * b + r && r < b
  {
    q, r := n / b, n % b;
  }

  /** The layout accounts for every raw codeword. */
  lemma LayoutTotal(l: Layout)
    requires l.Valid()
    ensures l.rawCodewords == l.Capacity() + l.numBlocks * l.eccLen
    ensures l.Before(0, l.ShortData() + l.eccLen + 1) == l.rawCodewords
  {
    var q, r := DivModParts(l.rawCodewords, l.numBlocks);
    var d, e, b := l.ShortData(), l.eccLen, l.numBlocks;
    assert q == d + e;
    Distribute(b, d, e);
  }

  lemma Distribute(p: nat, a: nat, b: nat)
    ensures (a + b) * p == p * a + p * b && p * a == a * p && p * b == b * p
  {}

  lemma OffsetNext(l: Layout, j: nat)
    requires l.Valid()
    ensures l.Offset(j + 1) == l.Offset(j) + l.DataLength(j)
  {
    MulNext(j, l.ShortData());
  }

  lemma {:induction false} OffsetMonotone(l: Layout, j: nat)
    requires l.Valid() && j <= l.numBlocks
    ensures l.Offset(j) <= l.Capacity()
    decreases l.numBlocks - j
  {
    if j < l.numBlocks {
      OffsetNext(l, j);
      OffsetMonotone(l, j + 1);
    }
  }

  lemma BeforeNext(l: Layout, j: nat, column: nat)
    requires l.Valid() && j < l.numBlocks && column <= l.ShortData() + l.eccLen
    ensures l.Before(j + 1, column) == l.Before(j, column) + (if l.Written(j, column) then 1 else 0)
    ensures l.Before(l.numBlocks, column) == l.Before(0, column + 1)
  {
    MulNext(column, l.numBlocks);
    if column > 0 { MulNext(column - 1, l.numBlocks); }
  }

  lemma {:induction false} BeforeInRow(l: Layout, i: nat, j: nat, column: nat)
    requires l.Valid() && i <= j <= l.numBlocks && column <= l.ShortData() + l.eccLen
    ensures l.Before(i, column) <= l.Before(j, column)
  {
    if i < j {
      BeforeInRow(l, i, j - 1, column);
      BeforeNext(l, j - 1, column);
    }
  }

  lemma {:induction false} BeforeColumns(l: Layout, i: nat, c: nat, column: nat)
    requires l.Valid() && i <= l.numBlocks && c < column <= l.ShortData() + l.eccLen + 1
    ensures l.Before(i, c) <= l.Before(0, column)
    decreases column - c
  {
    BeforeInRow(l, i, l.numBlocks, c);
    BeforeNext(l, 0, c);
    if c + 1 < column {
      BeforeColumns(l, 0, c + 1, column);
    }
  }

  // ---------- Every written byte has exactly one place ----------

  /** Which byte of which block stands at place t of the interleaved sequence. */
  function Source(l: Layout, t: nat): (nat, nat)
    requires l.Valid()
  {
    var b, d, long := l.numBlocks, l.ShortData(), l.numBlocks - l.NumShort();
    if t < d * b then (t % b, t / b)
    else if t < d * b + long then (l.NumShort() + (t - d * b), d)
    else ((t - d * b - long) % b, d + 1 + (t - d * b - long) / b)
  }

  /** Before and Source are inverse to each other: each written byte has one place and each place one byte. */
  lemma PlacesAreBijective(l: Layout, j: nat, column: nat)
    requires l.Valid() && l.Written(j, column)
    ensures l.Before(j, column) < l.rawCodewords
    ensures Source(l, l.Before(j, column)) == (j, column)
  {
    BeforeNext(l, j, column);
    BeforeColumnsTotal(l, j + 1, column);
    LayoutTotal(l);
    var b, d, long := l.numBlocks, l.ShortData(), l.numBlocks - l.NumShort();
    if column < d {
      MulMonotone(column + 1, d, b);
      MulNext(column, b);
      DivMod(column, b, j);
    } else if column > d {
      var c := column - 1 - d;
      MulMonotone(d, column - 1, b);
      Distribute(b, c, d);
      assert c + d == column - 1;
      assert l.Before(j, column) == d * b + long + (c * b + j);
      DivMod(c, b, j);
    }
  }

  lemma BeforeColumnsTotal(l: Layout, i: nat, c: nat)
    requires l.Valid() && i <= l.numBlocks && c <= l.ShortData() + l.eccLen
    ensures l.Before(i, c) <= l.Before(0, l.ShortData() + l.eccLen + 1)
  {
    BeforeColumns(l, i, c, l.ShortData() + l.eccLen + 1);
  }

  lemma EveryPlaceIsUsed(l: Layout, t: nat)
    requires l.Valid() && t < l.rawCodewords
    ensures var (j, column) := Source(l, t); l.Written(j, column) && l.Before(j, column) == t
  {
    LayoutTotal(l);
    var b, d, e, long := l.numBlocks, l.ShortData(), l.eccLen, l.numBlocks - l.NumShort();
    if t < d * b {
      var q, r := DivModParts(t, b);
      if q >= d { MulMonotone(d, q, b); }
    } else if t >= d * b + long {
      var u := t - d * b - long;
      var q, r := DivModParts(u, b);
      Distribute(b, d, e);
      assert (d + e + 1 - 1) * b == d * b + e * b;
      if q >= e { MulMonotone(e, q, b); }
      Distribute(b, q, d);
      assert (d + 1 + q - 1) * b == q * b + d * b;
    }
  }

  // ---------- Splitting and interleaving ----------

  function DataBlock(l: Layout, data: seq<bv8>, j: nat): (d: seq<bv8>)
    requires l.Valid() && |data| == l.Capacity() && j < l.numBlocks
    ensures |d| == l.DataLength(j)
  {
    OffsetNext(l, j);
    OffsetMonotone(l, j + 1);
    data[l.Offset(j)..l.Offset(j + 1)]
  }

  /** Block j in the common width: short blocks get a padding byte between data and error correction. */
  function PaddedBlock(l: Layout, data: seq<bv8>, j: nat): (w: seq<bv8>)
    requires l.Valid() && |data| == l.Capacity() && j < l.numBlocks
    ensures |w| == l.ShortData() + 1 + l.eccLen
  {
    var d := DataBlock(l, data, j);
    d + (if j < l.NumShort() then [0] else []) + Remainder(d, Generator(l.eccLen)[1..])
  }

  /** `result` holds every written byte of every block in its place, and nothing else. */
  ghost predicate IsInterleaving(l: Layout, data: seq<bv8>, result: seq<bv8>)
    requires l.Valid() && |data| == l.Capacity()
  {
    && |result| == l.rawCodewords
    && forall j, column :: 0 <= j < l.numBlocks && 0 <= column && l.Written(j, column) ==>
         l.Before(j, column) < |result| && result[l.Before(j, column)] == PaddedBlock(l, data, j)[column]
  }

  /** Splits the data into blocks with error correction. */
  method SplitBlocks(l: Layout, data: seq<bv8>) returns (blocks: seq<seq<bv8>>)
    requires l.Valid() && |data| == l.Capacity()
    ensures |blocks| == l.numBlocks && forall j :: 0 <= j < l.numBlocks ==> blocks[j] == PaddedBlock(l, data, j)
  {
    hide Remainder, Generator;
    blocks := [];
    var rsDiv := ComputeDivisor(l.eccLen);
    assert Generator(l.eccLen)[1..] != [];
    var k := 0;
    for i := 0 to l.numBlocks
      invariant k == l.Offset(i) && |blocks| == i
      invariant forall j :: 0 <= j < i ==> blocks[j] == PaddedBlock(l, data, j)
    {
      OffsetNext(l, i);
      OffsetMonotone(l, i + 1);
      var dat := data[k..k + l.rawCodewords / l.numBlocks - l.eccLen + (if i < l.NumShort() then 0 else 1)];
      assert dat == DataBlock(l, data, i);
      k := k + |dat|;
      var ecc := ComputeRemainder(dat, rsDiv.value);
      if i < l.NumShort() {
        dat := dat + [0];
      }
      dat := dat + ecc;
      blocks := blocks + [dat];
    }
  }

  /** Appends error correction and interleaves; refuses data of the wrong length. */
  method AddEccAndInterleave(l: Layout, data: seq<bv8>) returns (r: Option<seq<bv8>>)
    requires l.Valid()
    ensures r.Some? <==> |data| == l.Capacity()
    ensures r.Some? ==> IsInterleaving(l, data, r.value)
  {
    if |data| != l.Capacity() {
      return None;
    }
    hide PaddedBlock, DataBlock;
    var blocks := SplitBlocks(l, data);
    var result: seq<bv8> := [];
    var width := l.ShortData() + 1 + l.eccLen;
    for i := 0 to width
      invariant |result| == l.Before(0, i)
      invariant forall j, c :: 0 <= j < l.numBlocks && 0 <= c < i && l.Written(j, c) ==>
        l.Before(j, c) < |result| && result[l.Before(j, c)] == blocks[j][c]
    {
      result := WriteColumn(l, blocks, i, result);
      BeforeNext(l, 0, i);
    }
    LayoutTotal(l);
    r := Some(result);
  }

  /** One round over the blocks: byte i of each, except the padding. */
  method WriteColumn(l: Layout, blocks: seq<seq<bv8>>, i: nat, before: seq<bv8>) returns (result: seq<bv8>)
    requires l.Valid() && i <= l.ShortData() + l.eccLen && |before| == l.Before(0, i)
    requires |blocks| == l.numBlocks && forall j :: 0 <= j < |blocks| ==> |blocks[j]| == l.ShortData() + 1 + l.eccLen
    ensures before <= result && |result| == l.Before(l.numBlocks, i)
    ensures forall j :: 0 <= j < l.numBlocks && l.Written(j, i) ==>
      l.Before(j, i) < |result| && result[l.Before(j, i)] == blocks[j][i]
  {
    result := before;
    for j := 0 to l.numBlocks
      invariant before <= result && |result| == l.Before(j, i)
      invariant forall k :: 0 <= k < j && l.Written(k, i) ==>
        l.Before(k, i) < |result| && result[l.Before(k, i)] == blocks[k][i]
    {
      BeforeNext(l, j, i);
      if i != l.rawCodewords / l.numBlocks - l.eccLen || j >= l.NumShort() {
        result := result + [blocks[j][i]];
      }
    }
  }

  // ---------- Reading back ----------

  /** The column of byte k of block j. */
  function ColumnOf(l: Layout, j: nat, k: nat): nat
    requires l.Valid()
  {
    if k < l.DataLength(j) then k else k - l.DataLength(j) + l.ShortData() + 1
  }

  /** A reader's block j: data then error correction, without padding. */
  function ReadBlock(l: Layout, result: seq<bv8>, j: nat): (w: seq<bv8>)
    requires l.Valid() && |result| == l.rawCodewords && j < l.numBlocks
    ensures |w| == l.DataLength(j) + l.eccLen
  {
    seq(l.DataLength(j) + l.eccLen, k requires 0 <= k < l.DataLength(j) + l.eccLen =>
      PlacesAreBijective(l, j, ColumnOf(l, j, k));
      result[l.Before(j, ColumnOf(l, j, k))])
  }

  /** A reader's data: the data parts of the first n blocks, one after the other. */
  function ReadData(l: Layout, result: seq<bv8>, n: nat): seq<bv8>
    requires l.Valid() && |result| == l.rawCodewords && n <= l.numBlocks
  {
    if n == 0 then [] else ReadData(l, result, n - 1) + ReadBlock(l, result, n - 1)[..l.DataLength(n - 1)]
  }

  /** Each block a reader sees is the data of that block followed by its Reed-Solomon remainder. */
  lemma ReadBlockIsCodeword(l: Layout, data: seq<bv8>, result: seq<bv8>, j: nat)
    requires l.Valid() && |data| == l.Capacity() && IsInterleaving(l, data, result) && j < l.numBlocks
    ensures ReadBlock(l, result, j) == Block(DataBlock(l, data, j), l.eccLen)
  {
    hide Remainder, Generator;
    var d := DataBlock(l, data, j);
    forall k | 0 <= k < l.DataLength(j) + l.eccLen
      ensures ReadBlock(l, result, j)[k] == Block(d, l.eccLen)[k]
    {
      assert l.Written(j, ColumnOf(l, j, k));
    }
  }

  /** De-interleaving and dropping the error correction gives the data back. */
  lemma {:induction false} ReadDataIsData(l: Layout, data: seq<bv8>, result: seq<bv8>, n: nat)
    requires l.Valid() && |data| == l.Capacity() && IsInterleaving(l, data, result) && n <= l.numBlocks
    ensures l.Offset(n) <= |data| && ReadData(l, result, n) == data[..l.Offset(n)]
  {
    hide ReadBlock, Block, IsInterleaving;
    OffsetMonotone(l, n);
    if n > 0 {
      OffsetNext(l, n - 1);
      ReadDataIsData(l, data, result, n - 1);
      ReadBlockIsCodeword(l, data, result, n - 1);
      BlockStartsWithData(DataBlock(l, data, n - 1), l.eccLen);
    }
  }

  // ---------- Damaged symbols ----------

  /** No block has more changed bytes than half its error correction bytes. */
  predicate WithinCorrection(l: Layout, sent: seq<bv8>, received: seq<bv8>)
    requires l.Valid() && |sent| == |received| == l.rawCodewords
  {
    forall j | 0 <= j < l.numBlocks :: 2 * Distance(ReadBlock(l, sent, j), ReadBlock(l, received, j)) <= l.eccLen
  }

  lemma {:induction false} BlocksDetermineData(l: Layout, data: seq<bv8>, other: seq<bv8>, n: nat)
    requires l.Valid() && |data| == |other| == l.Capacity() && n <= l.numBlocks
    requires forall j :: 0 <= j < n ==> DataBlock(l, data, j) == DataBlock(l, other, j)
    ensures l.Offset(n) <= |data| && data[..l.Offset(n)] == other[..l.Offset(n)]
  {
    OffsetMonotone(l, n);
    if n > 0 {
      OffsetNext(l, n - 1);
      BlocksDetermineData(l, data, other, n - 1);
      var a, b := l.Offset(n - 1), l.Offset(n);
      assert data[..b] == data[..a] + DataBlock(l, data, n - 1);
      assert other[..b] == other[..a] + DataBlock(l, other, n - 1);
    }
  }

  /** What is received with no block damaged beyond half its error correction comes from one data sequence only. */
  lemma DamageIsCorrectable(l: Layout, data: seq<bv8>, sent: seq<bv8>, other: seq<bv8>, otherSent: seq<bv8>,
      received: seq<bv8>)
    requires l.Valid() && l.ShortData() + 1 + l.eccLen <= 255 && |received| == l.rawCodewords
    requires |data| == l.Capacity() && IsInterleaving(l, data, sent) && WithinCorrection(l, sent, received)
    requires |other| == l.Capacity() && IsInterleaving(l, other, otherSent) && WithinCorrection(l, otherSent, received)
    ensures data == other && sent == otherSent
  {
    hide Block, Distance, DataBlock, ReadBlock;
    forall j | 0 <= j < l.numBlocks
      ensures DataBlock(l, data, j) == DataBlock(l, other, j)
    {
      ReadBlockIsCodeword(l, data, sent, j);
      ReadBlockIsCodeword(l, other, otherSent, j);
      ChangesAreCorrectable(DataBlock(l, data, j), DataBlock(l, other, j), l.eccLen, ReadBlock(l, received, j));
    }
    BlocksDetermineData(l, data, other, l.numBlocks);
    assert data[..l.Offset(l.numBlocks)] == data && other[..l.Offset(l.numBlocks)] == other;
    InterleavingIsUnique(l, data, sent, otherSent);
  }

  /** The data determines the interleaved bytes. */
  lemma InterleavingIsUnique(l: Layout, data: seq<bv8>, a: seq<bv8>, b: seq<bv8>)
    requires l.Valid() && |data| == l.Capacity() && IsInterleaving(l, data, a) && IsInterleaving(l, data, b)
    ensures a == b
  {
    hide PaddedBlock, Source, Layout.Before;
    forall t | 0 <= t < l.rawCodewords
      ensures a[t] == b[t]
    {
      EveryPlaceIsUsed(l, t);
      var (j, column) := Source(l, t);
      assert l.Written(j, column) && 0 <= j < l.numBlocks;
      assert a[l.Before(j, column)] == PaddedBlock(l, data, j)[column] == b[l.Before(j, column)];
    }
  }
}
