/** Reading the format information back from a finished grid. */
module QrFormat {
  import opened QrGrid
  import opened QrPatterns
  import opened QrMask

  lemma FormatStepSmall(rem: bv32)
    requires rem < 1024
    ensures FormatStep(rem) < 1024
  {}

  lemma {:induction false} FormatRemainderSmall(data: bv32, n: nat)
    requires data < 1024
    ensures FormatRemainder(data, n) < 1024
  {
    hide FormatStep;
    if n > 0 {
      FormatRemainderSmall(data, n - 1);
      FormatStepSmall(FormatRemainder(data, n - 1));
    }
  }

  /** The data part stands in the top five bits, under the fixed pattern 10101. */
  lemma FormatTop(data: bv32, rem: bv32, i: nat)
    requires data < 32 && rem < 1024 && i < 5
    ensures GetBit(FormatWord(data, rem), 10 + i) == (GetBit(data, i) != (i % 2 == 0))
  {
    assert i == 0 || i == 1 || i == 2 || i == 3 || i == 4;
  }

  function Digit(b: bool): nat { if b then 1 else 0 }

  /** Level and mask from the fifteen format bits, lowest first. */
  function DecodeFormat(bits: seq<bool>): (Ecc, nat)
    requires |bits| == 15
  {
    var d := seq(5, i requires 0 <= i < 5 => bits[10 + i] != (i % 2 == 0));
    var level := if d[4] then (if d[3] then Quartile else High) else (if d[3] then Low else Medium);
    (level, Digit(d[0]) + 2 * Digit(d[1]) + 4 * Digit(d[2]))
  }

  /** The bits of level and mask. */
  lemma FormatDataBits(ecl: Ecc, mask: nat)
    requires mask < 8
    ensures var data := FormatData(ecl, mask as bv32);
      && data < 32
      && GetBit(data, 0) == (mask % 2 == 1) && GetBit(data, 1) == (mask / 2 % 2 == 1)
        && GetBit(data, 2) == (mask / 4 == 1)
      && GetBit(data, 3) == (ecl == Low || ecl == Quartile) && GetBit(data, 4) == (ecl == Quartile || ecl == High)
  {
    assert mask == 0 || mask == 1 || mask == 2 || mask == 3 || mask == 4 || mask == 5 || mask == 6 || mask == 7;
  }

  function WordBits(word: bv32): (bits: seq<bool>)
    ensures |bits| == 15
  {
    seq(15, i requires 0 <= i < 15 => GetBit(word, i))
  }

  /** Format bits name the level and the mask they were made from. */
  lemma FormatRoundTrip(ecl: Ecc, mask: nat)
    requires mask < 8
    ensures DecodeFormat(WordBits(FormatBits(ecl, mask as bv32))) == (ecl, mask)
  {
    hide FormatWord, FormatData, FormatRemainder, GetBit;
    var data := FormatData(ecl, mask as bv32);
    FormatDataBits(ecl, mask);
    FormatRemainderSmall(data, 10);
    var rem := FormatRemainder(data, 10);
    FormatTop(data, rem, 0);
    FormatTop(data, rem, 1);
    FormatTop(data, rem, 2);
    FormatTop(data, rem, 3);
    FormatTop(data, rem, 4);
  }

  /** Where format bit i stands in the first copy. */
  function FormatCell(i: nat): Cell
    requires i < 15
  {
    if i <= 5 then Cell(8, i) else if i == 6 then Cell(8, 7) else if i == 7 then Cell(8, 8)
    else if i == 8 then Cell(7, 8) else Cell(14 - i, 8)
  }

  function ReadFormat(g: Grid): (bits: seq<bool>)
    requires Square(g, |g|) && |g| >= 21
    ensures |bits| == 15
  {
    seq(15, i requires 0 <= i < 15 => At(g, FormatCell(i)))
  }

  /** Where format bit i stands in the second copy. */
  function SecondFormatCell(size: nat, i: nat): (c: Cell)
    requires i < 15 && size >= 21
    ensures Inside(c, size)
  {
    if i < 8 then Cell(size - 1 - i, 8) else Cell(8, size - 15 + i)
  }

  function ReadSecondFormat(g: Grid): (bits: seq<bool>)
    requires Square(g, |g|) && |g| >= 21
    ensures |bits| == 15
  {
    seq(15, i requires 0 <= i < 15 => At(g, SecondFormatCell(|g|, i)))
  }

  /** Freshly drawn format bits are read back from either copy. */
  lemma FormatIsReadBack(g: Grid, size: nat, word: bv32)
    requires Square(g, size) && size >= 21
    ensures var r := DrawMarks(g, FormatMarks(size, word));
      ReadFormat(r) == ReadSecondFormat(r) == WordBits(word)
  {
    hide GetBit, DrawMarks;
    var marks := FormatMarks(size, word);
    forall i | 0 <= i < 15
      ensures ReadFormat(DrawMarks(g, marks))[i] == WordBits(word)[i]
    {
      assert marks[i].cell == FormatCell(i) && marks[i].dark == GetBit(word, i);
      forall j | i < j < |marks|
        ensures marks[j].cell != marks[i].cell
      {
        FormatCellsDiffer(size, word, i, j);
      }
      DrawShows(g, marks, i);
    }
    forall i | 0 <= i < 15
      ensures ReadSecondFormat(DrawMarks(g, marks))[i] == WordBits(word)[i]
    {
      SecondMark(size, word, i);
      DrawShows(g, marks, 15 + i);
    }
  }

  lemma FormatCellsDiffer(size: nat, word: bv32, i: nat, j: nat)
    requires size >= 21 && i < 15 && i < j < |FormatMarks(size, word)|
    ensures FormatMarks(size, word)[j].cell != FormatMarks(size, word)[i].cell
  {
    hide GetBit;
    var first, second := FirstCopy(size, word), SecondCopy(size, word);
    assert forall k :: 0 <= k < 15 ==> first[k].cell == FormatCell(k);
    assert forall k :: 0 <= k < 16 ==> second[k].cell.x >= size - 8 || second[k].cell.y >= size - 8;
  }

  /** The mark of bit i in the second copy; no later mark, the dark module included, is on its cell. */
  lemma SecondMark(size: nat, word: bv32, i: nat)
    requires size >= 21 && i < 15
    ensures var m := FormatMarks(size, word);
      |m| == 31 && m[15 + i] == Mark(SecondFormatCell(size, i), GetBit(word, i))
      && forall j :: 15 + i < j < |m| ==> m[j].cell != m[15 + i].cell
  {
    hide GetBit;
    var second := SecondCopy(size, word);
    assert forall k :: 0 <= k < 15 ==> second[k].cell == SecondFormatCell(size, k);
    assert second[15].cell == Cell(8, size - 8);
    assert forall k :: 0 <= k < 16 ==> FormatMarks(size, word)[15 + k] == second[k];
  }
}
