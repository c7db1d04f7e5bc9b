/** A reader for the data bits of a symbol, after section 7.4 of ISO/IEC 18004: mode indicator,
    character count, data, until a terminator or the end of the bits. */
module QrReader {
  import opened Bits
  import opened BitReader
  import opened Wrappers
  import opened QrSegment

  function DigitChar(v: nat): char
    requires v < 10
  {
    (v + '0' as int) as char
  }

  /** Three digits from ten bits, two from seven, one from four. */
  function ReadDigits(bits: seq<bool>, p: nat, n: nat): (r: Parsed<string>)
    ensures r.Parsed? ==> p <= r.pos
    decreases n
  {
    if n == 0 then Parsed("", p)
    else if n == 1 then
      var v := ReadHigh(bits, p, 4);
      if v.Malformed? || v.value >= 10 then Malformed else Parsed([DigitChar(v.value)], v.pos)
    else if n == 2 then
      var v := ReadHigh(bits, p, 7);
      if v.Malformed? || v.value >= 100 then Malformed
          else Parsed([DigitChar(v.value / 10), DigitChar(v.value % 10)], v.pos)
    else
      var v := ReadHigh(bits, p, 10);
      if v.Malformed? || v.value >= 1000 then Malformed
      else
        var rest := ReadDigits(bits, v.pos, n - 3);
        if rest.Malformed? then Malformed
        else Parsed([DigitChar(v.value / 100), DigitChar(v.value / 10 % 10), DigitChar(v.value % 10)] + rest.value,
          rest.pos)
  }

  /** Two characters from eleven bits, one from six. */
  function ReadAlphanumeric(bits: seq<bool>, p: nat, n: nat): (r: Parsed<string>)
    ensures r.Parsed? ==> p <= r.pos
    decreases n
  {
    if n == 0 then Parsed("", p)
    else if n == 1 then
      var v := ReadHigh(bits, p, 6);
      if v.Malformed? || v.value >= 45 then Malformed else Parsed([ALPHANUMERIC_CHARSET[v.value]], v.pos)
    else
      var v := ReadHigh(bits, p, 11);
      if v.Malformed? || v.value >= 2025 then Malformed
      else
        var rest := ReadAlphanumeric(bits, v.pos, n - 2);
        if rest.Malformed? then Malformed
        else Parsed([ALPHANUMERIC_CHARSET[v.value / 45], ALPHANUMERIC_CHARSET[v.value % 45]] + rest.value, rest.pos)
  }

  function ReadByteChars(bits: seq<bool>, p: nat, n: nat): (r: Parsed<string>)
    ensures r.Parsed? ==> p <= r.pos
    decreases n
  {
    if n == 0 then Parsed("", p)
    else
      var v := ReadHigh(bits, p, 8);
      if v.Malformed? || v.value >= 256 then Malformed
      else
        var rest := ReadByteChars(bits, v.pos, n - 1);
        if rest.Malformed? then Malformed else Parsed([v.value as char] + rest.value, rest.pos)
  }

  /** Segments up to the terminator 0000, or until fewer than four bits are left. */
  function ReadSegments(bits: seq<bool>, p: nat, version: nat): Option<string>
    requires version <= 40
    decreases |bits| - p
  {
    if p + 4 > |bits| then Some("")
    else
      var indicator := ReadHigh(bits, p, 4).value;
      if indicator == 0 then Some("")
      else if indicator != 1 && indicator != 2 && indicator != 4 then None
      else
        var mode := if indicator == 1 then Numeric else if indicator == 2 then Alphanumeric else Bytes;
        var count := ReadHigh(bits, p + 4, mode.CharCountBits(version));
        if count.Malformed? then None
        else
          var text := if indicator == 1 then ReadDigits(bits, count.pos, count.value)
                      else if indicator == 2 then ReadAlphanumeric(bits, count.pos, count.value)
                      else ReadByteChars(bits, count.pos, count.value);
          if text.Malformed? then None
          else
            var rest := ReadSegments(bits, text.pos, version);
            if rest.None? then None else Some(text.value + rest.value)
  }

  // ---------- Payloads are read back ----------

  lemma DecimalOne(d: string)
    requires |d| == 1 && AllDigits(d)
    ensures DigitChar(Decimal(d)) == d[0]
  {
    assert Decimal(d[..0]) == 0;
  }

  lemma DecimalTwo(d: string)
    requires |d| == 2 && AllDigits(d)
    ensures DigitChar(Decimal(d) / 10) == d[0] && DigitChar(Decimal(d) % 10) == d[1]
  {
    DecimalOne(d[..1]);
  }

  lemma DecimalThree(d: string)
    requires |d| == 3 && AllDigits(d)
    ensures DigitChar(Decimal(d) / 100) == d[0] && DigitChar(Decimal(d) / 10 % 10) == d[1]
      && DigitChar(Decimal(d) % 10) == d[2]
  {
    DecimalTwo(d[..2]);
    assert Decimal(d) / 10 == Decimal(d[..2]);
  }

  lemma {:induction false} DigitsReadBack(bits: seq<bool>, p: nat, d: string)
    requires AllDigits(d) && StandsAt(bits, p, NumericBits(d))
    ensures ReadDigits(bits, p, |d|) == Parsed(d, p + |NumericBits(d)|)
    decreases |d|
  {
    hide HighBits, HighValue, Decimal, DigitChar, ReadHigh, StandsAt;
    SmallPow2();
    if |d| == 0 {
    } else if |d| == 1 {
      ReadHighAt(bits, p, Decimal(d), 4);
      DecimalOne(d);
      assert d == [d[0]];
    } else if |d| == 2 {
      ReadHighAt(bits, p, Decimal(d), 7);
      DecimalTwo(d);
      assert d == [d[0], d[1]];
    } else {
      var a, rest := d[..3], d[3..];
      StandsAtSplit(bits, p, HighBits(Decimal(a), 10), NumericBits(rest));
      ReadHighAt(bits, p, Decimal(a), 10);
      DecimalThree(a);
      DigitsReadBack(bits, p + 10, rest);
      assert d == [d[0], d[1], d[2]] + rest;
    }
  }

  lemma {:induction false} AlphanumericReadBack(bits: seq<bool>, p: nat, d: string)
    requires AllAlphanumeric(d) && StandsAt(bits, p, AlphanumericBits(d))
    ensures ReadAlphanumeric(bits, p, |d|) == Parsed(d, p + |AlphanumericBits(d)|)
    decreases |d|
  {
    hide HighBits, HighValue, ReadHigh, StandsAt, CharValue, FindChar, IsAlphanumericChar;
    SmallPow2();
    if |d| == 0 {
    } else if |d| == 1 {
      ReadHighAt(bits, p, CharValue(d[0]), 6);
      assert d == [d[0]];
    } else {
      var rest, v := d[2..], CharValue(d[0]) * 45 + CharValue(d[1]);
      StandsAtSplit(bits, p, HighBits(v, 11), AlphanumericBits(rest));
      ReadHighAt(bits, p, v, 11);
      assert v / 45 == CharValue(d[0]) && v % 45 == CharValue(d[1]);
      AlphanumericReadBack(bits, p + 11, rest);
      assert d == [d[0], d[1]] + rest;
    }
  }

  lemma {:induction false} BytesReadBack(bits: seq<bool>, p: nat, d: string)
    requires IsByteString(d) && StandsAt(bits, p, ByteBits(d))
    ensures ReadByteChars(bits, p, |d|) == Parsed(d, p + |ByteBits(d)|)
    decreases |d|
  {
    hide HighBits, HighValue, ReadHigh, StandsAt;
    SmallPow2();
    if d != "" {
      var rest := d[1..];
      StandsAtSplit(bits, p, HighBits(d[0] as int, 8), ByteBits(rest));
      ReadHighAt(bits, p, d[0] as int, 8);
      BytesReadBack(bits, p + 8, rest);
      assert d == [d[0]] + rest;
    }
  }

  // ---------- Segments are read back ----------

  function SegmentBits(seg: Segment, version: nat): seq<bool>
    requires version <= 40
  {
    HighBits(seg.mode.ModeBits(), 4) + HighBits(seg.numChars, seg.mode.CharCountBits(version)) + seg.data
  }

  function AllBits(segs: seq<Segment>, version: nat): seq<bool>
    requires version <= 40
  {
    if segs == [] then [] else SegmentBits(segs[0], version) + AllBits(segs[1..], version)
  }

  function Join(texts: seq<string>): string {
    if texts == [] then "" else texts[0] + Join(texts[1..])
  }

  ghost predicate AllRepresent(segs: seq<Segment>, texts: seq<string>) {
    |segs| == |texts| && forall i :: 0 <= i < |segs| ==> Represents(segs[i], texts[i])
  }

  predicate CountsFit(segs: seq<Segment>, version: nat)
    requires version <= 40
  {
    forall i :: 0 <= i < |segs| ==> segs[i].numChars < Pow2(segs[i].mode.CharCountBits(version))
  }

  /** What follows the segments ends them: a terminator, or too little room for one. */
  predicate Terminated(bits: seq<bool>, p: nat) {
    p <= |bits| && (p + 4 > |bits| || ReadHigh(bits, p, 4) == Parsed(0, p + 4))
  }

  lemma {:induction false} SegmentReadBack(bits: seq<bool>, p: nat, version: nat, seg: Segment, text: string)
    requires version <= 40 && Represents(seg, text) && seg.numChars < Pow2(seg.mode.CharCountBits(version))
    requires StandsAt(bits, p, SegmentBits(seg, version))
    ensures var rest := ReadSegments(bits, p + |SegmentBits(seg, version)|, version);
      ReadSegments(bits, p, version) == if rest.None? then None else Some(text + rest.value)
  {
    hide HighBits, HighValue, ReadHigh, NumericBits, AlphanumericBits, ByteBits, ReadDigits, ReadAlphanumeric,
      ReadByteChars, Pow2;
    SmallPow2();
    var cc := seg.mode.CharCountBits(version);
    var indicator, count := HighBits(seg.mode.ModeBits(), 4), HighBits(seg.numChars, cc);
    StandsAtSplit(bits, p, indicator + count, seg.data);
    StandsAtSplit(bits, p, indicator, count);
    ReadHighAt(bits, p, seg.mode.ModeBits(), 4);
    ReadHighAt(bits, p + 4, seg.numChars, cc);
    match seg.mode
    case Numeric => DigitsReadBack(bits, p + 4 + cc, text);
    case Alphanumeric => AlphanumericReadBack(bits, p + 4 + cc, text);
    case Bytes => BytesReadBack(bits, p + 4 + cc, text);
  }

  /** A reader gets the concatenated texts of all segments. */
  lemma {:induction false} SegmentsReadBack(bits: seq<bool>, p: nat, version: nat, segs: seq<Segment>,
      texts: seq<string>)
    requires version <= 40 && AllRepresent(segs, texts) && CountsFit(segs, version)
    requires StandsAt(bits, p, AllBits(segs, version)) && Terminated(bits, p + |AllBits(segs, version)|)
    ensures ReadSegments(bits, p, version) == Some(Join(texts))
    decreases |segs|
  {
    hide SegmentBits, Pow2, StandsAt, ReadHigh, Represents;
    if segs != [] {
      StandsAtSplit(bits, p, SegmentBits(segs[0], version), AllBits(segs[1..], version));
      SegmentReadBack(bits, p, version, segs[0], texts[0]);
      SegmentsReadBack(bits, p + |SegmentBits(segs[0], version)|, version, segs[1..], texts[1..]);
    }
  }
}
