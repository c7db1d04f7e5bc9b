/** Segments: text turned into mode, character count and data bits, and a reader for them after
    section 7.4 of ISO/IEC 18004. */
module QrSegment {
  import opened Bits
  import opened Wrappers

  datatype Mode = Numeric | Alphanumeric | Bytes | Kanji | Eci {
    function ModeBits(): nat {
      match this
      case Numeric => 0x1
      case Alphanumeric => 0x2
      case Bytes => 0x4
      case Kanji => 0x8
      case Eci => 0x7
    }

    /** Width of the character count field. */
    function CharCountBits(version: nat): (n: nat)
      requires version <= 40
      ensures n <= 16
    {
      var i := (version + 7) / 17;
      match this
      case Numeric => [10, 12, 14][i]
      case Alphanumeric => [9, 11, 13][i]
      case Bytes => [8, 16, 16][i]
      case Kanji => [8, 10, 12][i]
      case Eci => 0
    }
  }

  const INT_MAX := 0x7FFF_FFFF

  datatype Segment = Segment(mode: Mode, numChars: nat, data: seq<bool>)

  /** A C string: bytes without the terminating zero. */
  predicate IsCString(text: string) {
    forall i :: 0 <= i < |text| ==> 0 < text[i] as int < 256
  }

  /** A vector of bytes, zero included. */
  predicate IsByteString(data: string) {
    forall i :: 0 <= i < |data| ==> data[i] as int < 256
  }

  const ALPHANUMERIC_CHARSET := "0123456789ABCDEFGHIJKLMNOPQRSTUVWXYZ $%*+-./:"

  // ---------- Bit buffer ----------

  function ShiftRight(val: nat, n: nat): nat {
    if n == 0 then val else ShiftRight(val / 2, n - 1)
  }

  lemma {:induction false} HighBitsAt(val: nat, len: nat, i: nat)
    requires i < len
    ensures HighBits(val, len)[len - 1 - i] == (ShiftRight(val, i) % 2 == 1)
  {
    if i > 0 {
      HighBitsAt(val / 2, len - 1, i - 1);
    }
  }

  class BitBuffer {
    var bits: seq<bool>

    constructor ()
      ensures bits == []
    {
      bits := [];
    }

    /** Appends the low `len` bits of a value, highest first; refuses values that do not fit. */
    method AppendBits(val: nat, len: int) returns (ok: bool)
      modifies this
      ensures ok <==> 0 <= len <= 31 && val < Pow2(len)
      ensures bits == if ok then old(bits) + HighBits(val, len) else old(bits)
    {
      if len < 0 || len > 31 {
        return false;
      }
      if val >= Pow2(len) {
        return false;
      }
      ghost var all := HighBits(val, len);
      for i := len downto 0
        invariant bits == old(bits) + all[..len - i]
      {
        HighBitsAt(val, len, i);
        assert all[..len - i] == all[..len - i - 1] + [all[len - i - 1]];
        bits := bits + [ShiftRight(val, i) % 2 == 1];
      }
      ok := true;
    }

    method Insert(data: seq<bool>)
      modifies this
      ensures bits == old(bits) + data
    {
      bits := bits + data;
    }
  }

  // ---------- Numeric mode ----------

  predicate IsDigit(c: char) { '0' <= c <= '9' }

  predicate AllDigits(text: string) { forall i :: 0 <= i < |text| ==> IsDigit(text[i]) }

  function Decimal(digits: string): (v: nat)
    requires AllDigits(digits)
    ensures |digits| == 1 ==> v < 10
    ensures |digits| == 2 ==> v < 100
    ensures |digits| == 3 ==> v < 1000
  {
    if digits == [] then 0
    else Decimal(digits[..|digits| - 1]) * 10 + (digits[|digits| - 1] as int - '0' as int)
  }

  /** Three digits in ten bits; the last one or two digits in four or seven. */
  function NumericBits(digits: string): seq<bool>
    requires AllDigits(digits)
  {
    if digits == [] then []
    else if |digits| < 3 then HighBits(Decimal(digits), |digits| * 3 + 1)
    else HighBits(Decimal(digits[..3]), 10) + NumericBits(digits[3..])
  }

  lemma {:induction false} NumericGroup(p: string, rest: string)
    requires |p| == 3 && AllDigits(p) && AllDigits(rest)
    ensures AllDigits(p + rest) && NumericBits(p + rest) == HighBits(Decimal(p), 10) + NumericBits(rest)
  {
    hide HighBits, Decimal;
    assert (p + rest)[..3] == p && (p + rest)[3..] == rest;
  }

  lemma {:induction false} DecimalNext(p: string, c: char)
    requires AllDigits(p) && IsDigit(c)
    ensures AllDigits(p + [c]) && Decimal(p + [c]) == Decimal(p) * 10 + (c as int - '0' as int)
  {
    assert (p + [c])[..|p|] == p;
  }

  /** The bits so far, and the digits that still wait for their group. */
  ghost predicate NumericState(digits: string, i: nat, bits: seq<bool>, pending: string) {
    && i <= |digits| && AllDigits(digits[..i]) && AllDigits(pending)
    && (AllDigits(digits[i..]) ==>
          AllDigits(digits) && AllDigits(pending + digits[i..])
              && NumericBits(digits) == bits + NumericBits(pending + digits[i..]))
  }

  lemma {:induction false} NumericStep(digits: string, i: nat, bits: seq<bool>, pending: string)
    requires i < |digits| && NumericState(digits, i, bits, pending) && |pending| < 3 && IsDigit(digits[i])
    ensures if |pending| < 2 then NumericState(digits, i + 1, bits, pending + [digits[i]])
            else NumericState(digits, i + 1, bits + HighBits(Decimal(pending + [digits[i]]), 10), "")
  {
    hide HighBits, Decimal, NumericBits;
    var c, rest := digits[i], digits[i + 1..];
    assert digits[i..] == [c] + rest && digits[..i + 1] == digits[..i] + [c];
    assert pending + digits[i..] == (pending + [c]) + rest;
    if AllDigits(rest) {
      if |pending| == 2 {
        NumericGroup(pending + [c], rest);
        assert "" + rest == rest;
      }
    }
  }

  method MakeNumeric(digits: string) returns (r: Option<Segment>)
    ensures r == if AllDigits(digits) then Some(Segment(Numeric, |digits|, NumericBits(digits))) else None
  {
    hide HighBits, Decimal, NumericBits, NumericState;
    var bb := new BitBuffer();
    var accumData: nat, accumCount: nat := 0, 0;
    ghost var pending := "";
    NumericStart(digits);
    SmallPow2();
    for i := 0 to |digits|
      invariant accumCount == |pending| < 3 && AllDigits(pending) && accumData == Decimal(pending)
      invariant NumericState(digits, i, bb.bits, pending)
    {
      var c := digits[i];
      if c < '0' || c > '9' {
        return None;
      }
      NumericStep(digits, i, bb.bits, pending);
      DecimalNext(pending, c);
      accumData := accumData * 10 + (c as int - '0' as int);
      accumCount := accumCount + 1;
      pending := pending + [c];
      if accumCount == 3 {
        var ok := bb.AppendBits(accumData, 10);
        accumData := 0;
        accumCount := 0;
        pending := "";
      }
    }
    NumericEnd(digits, bb.bits, pending);
    assert bb.bits + [] == bb.bits;
    if accumCount > 0 {
      var ok := bb.AppendBits(accumData, accumCount * 3 + 1);
    }
    r := Some(Segment(Numeric, |digits|, bb.bits));
  }

  lemma NumericStart(digits: string)
    ensures NumericState(digits, 0, [], "") && Decimal("") == 0
  {
    assert digits[0..] == digits && "" + digits == digits;
  }

  lemma NumericEnd(digits: string, bits: seq<bool>, pending: string)
    requires NumericState(digits, |digits|, bits, pending) && |pending| < 3
    ensures AllDigits(digits) && AllDigits(pending)
    ensures NumericBits(digits) == bits + (if pending == "" then [] else HighBits(Decimal(pending), |pending| * 3 + 1))
  {
    assert digits[|digits|..] == "" && pending + "" == pending;
  }

  lemma SmallPow2()
    ensures Pow2(4) == 16 && Pow2(6) == 64 && Pow2(7) == 128 && Pow2(8) == 256 && Pow2(10) == 1024 && Pow2(11) == 2048
  {
    assert Pow2(4) == 16;
    assert Pow2(8) == 256;
  }

  // ---------- Alphanumeric mode ----------

  /** The first place of c in the character set from k on. */
  function FindChar(c: char, k: nat): (r: Option<nat>)
    requires k <= |ALPHANUMERIC_CHARSET|
    ensures r.Some? ==> r.value < |ALPHANUMERIC_CHARSET| && ALPHANUMERIC_CHARSET[r.value] == c
    ensures r.None? ==> forall i :: k <= i < |ALPHANUMERIC_CHARSET| ==> ALPHANUMERIC_CHARSET[i] != c
    decreases |ALPHANUMERIC_CHARSET| - k
  {
    if k == |ALPHANUMERIC_CHARSET| then None
    else if ALPHANUMERIC_CHARSET[k] == c then Some(k)
    else FindChar(c, k + 1)
  }

  predicate IsAlphanumericChar(c: char) { FindChar(c, 0).Some? }

  predicate AllAlphanumeric(text: string) { forall i :: 0 <= i < |text| ==> IsAlphanumericChar(text[i]) }

  function CharValue(c: char): (v: nat)
    requires IsAlphanumericChar(c)
    ensures v < 45 && ALPHANUMERIC_CHARSET[v] == c
  {
    FindChar(c, 0).value
  }

  /** Two characters in eleven bits; a last single one in six. */
  function AlphanumericBits(text: string): seq<bool>
    requires AllAlphanumeric(text)
  {
    if text == [] then []
    else if |text| == 1 then HighBits(CharValue(text[0]), 6)
    else HighBits(CharValue(text[0]) * 45 + CharValue(text[1]), 11) + AlphanumericBits(text[2..])
  }

  ghost predicate AlphanumericState(text: string, i: nat, bits: seq<bool>, pending: string) {
    && i <= |text| && AllAlphanumeric(text[..i]) && AllAlphanumeric(pending)
    && (AllAlphanumeric(text[i..]) ==>
          AllAlphanumeric(text) && AllAlphanumeric(pending + text[i..])
          && AlphanumericBits(text) == bits + AlphanumericBits(pending + text[i..]))
  }

  lemma {:induction false} AlphanumericGroup(a: char, b: char, rest: string)
    requires IsAlphanumericChar(a) && IsAlphanumericChar(b) && AllAlphanumeric(rest)
    ensures AllAlphanumeric([a, b] + rest)
    ensures AlphanumericBits([a, b] + rest) == HighBits(CharValue(a) * 45 + CharValue(b), 11) + AlphanumericBits(rest)
  {
    hide HighBits, CharValue, IsAlphanumericChar;
    assert ([a, b] + rest)[2..] == rest;
  }

  lemma {:induction false} AlphanumericStep(text: string, i: nat, bits: seq<bool>, pending: string)
    requires i < |text| && AlphanumericState(text, i, bits, pending) && |pending| < 2 && IsAlphanumericChar(text[i])
    ensures if pending == "" then AlphanumericState(text, i + 1, bits, [text[i]])
            else AlphanumericState(text, i + 1, bits + HighBits(CharValue(pending[0]) * 45 + CharValue(text[i]), 11),
                                   "")
  {
    hide HighBits, CharValue, AlphanumericBits, IsAlphanumericChar;
    var c, rest := text[i], text[i + 1..];
    assert text[i..] == [c] + rest && text[..i + 1] == text[..i] + [c];
    if AllAlphanumeric(rest) {
      if pending == "" {
        assert "" + text[i..] == [c] + rest;
      } else {
        AlphanumericGroup(pending[0], c, rest);
        assert pending + text[i..] == [pending[0], c] + rest;
        assert "" + rest == rest;
      }
    }
  }

  method MakeAlphanumeric(text: string) returns (r: Option<Segment>)
    ensures r == if AllAlphanumeric(text) then Some(Segment(Alphanumeric, |text|, AlphanumericBits(text))) else None
  {
    hide HighBits, FindChar, AlphanumericBits, AlphanumericState;
    var bb := new BitBuffer();
    var accumData: nat, accumCount: nat := 0, 0;
    ghost var pending := "";
    AlphanumericStart(text);
    SmallPow2();
    for i := 0 to |text|
      invariant accumCount == |pending| < 2 && AllAlphanumeric(pending)
      invariant accumData == if pending == "" then 0 else CharValue(pending[0])
      invariant AlphanumericState(text, i, bb.bits, pending)
    {
      var temp := FindChar(text[i], 0);
      if temp.None? {
        return None;
      }
      AlphanumericStep(text, i, bb.bits, pending);
      assert "" + [text[i]] == [text[i]];
      accumData := accumData * 45 + temp.value;
      accumCount := accumCount + 1;
      pending := pending + [text[i]];
      if accumCount == 2 {
        var ok := bb.AppendBits(accumData, 11);
        accumData := 0;
        accumCount := 0;
        pending := "";
      }
    }
    AlphanumericEnd(text, bb.bits, pending);
    assert bb.bits + [] == bb.bits;
    if accumCount > 0 {
      var ok := bb.AppendBits(accumData, 6);
    }
    r := Some(Segment(Alphanumeric, |text|, bb.bits));
  }

  lemma AlphanumericStart(text: string)
    ensures AlphanumericState(text, 0, [], "")
  {
    assert text[0..] == text && "" + text == text;
  }

  lemma AlphanumericEnd(text: string, bits: seq<bool>, pending: string)
    requires AlphanumericState(text, |text|, bits, pending) && |pending| < 2
    ensures AllAlphanumeric(text) && AllAlphanumeric(pending)
    ensures AlphanumericBits(text) == bits + (if pending == "" then [] else HighBits(CharValue(pending[0]), 6))
  {
    assert text[|text|..] == "" && pending + "" == pending;
  }

  // ---------- Byte mode ----------

  function ByteBits(text: string): seq<bool> {
    if text == [] then [] else HighBits(text[0] as int, 8) + ByteBits(text[1..])
  }

  lemma ByteBitsFrom(data: string, i: nat)
    requires IsByteString(data) && i <= |data|
    ensures IsByteString(data[i..])
    ensures ByteBits(data[i..])
         == if i == |data| then [] else HighBits(data[i] as int, 8) + ByteBits(data[i + 1..])
  {
    if i < |data| {
      assert data[i..][1..] == data[i + 1..];
    }
  }

  method MakeBytes(data: string) returns (r: Option<Segment>)
    requires IsByteString(data)
    ensures r == if |data| > INT_MAX then None else Some(Segment(Bytes, |data|, ByteBits(data)))
  {
    hide HighBits, ByteBits;
    if |data| > INT_MAX {
      return None;
    }
    var bb := new BitBuffer();
    SmallPow2();
    hide Pow2;
    assert data[0..] == data;
    for i := 0 to |data|
      invariant ByteBits(data) == bb.bits + ByteBits(data[i..])
    {
      ByteBitsFrom(data, i);
      var ok := bb.AppendBits(data[i] as int, 8);
    }
    ByteBitsFrom(data, |data|);
    assert bb.bits == ByteBits(data);
    r := Some(Segment(Bytes, |data|, bb.bits));
  }

  // ---------- Choosing the mode ----------

  method IsNumeric(text: string) returns (b: bool)
    ensures b == AllDigits(text)
  {
    for i := 0 to |text|
      invariant AllDigits(text[..i])
    {
      if text[i] < '0' || text[i] > '9' {
        return false;
      }
      assert text[..i + 1] == text[..i] + [text[i]];
    }
    assert text[..|text|] == text;
    b := true;
  }

  method IsAlphanumeric(text: string) returns (b: bool)
    ensures b == AllAlphanumeric(text)
  {
    hide FindChar;
    for i := 0 to |text|
      invariant AllAlphanumeric(text[..i])
    {
      if FindChar(text[i], 0).None? {
        return false;
      }
      assert text[..i + 1] == text[..i] + [text[i]];
    }
    assert text[..|text|] == text;
    b := true;
  }

  /** The segment carries this text. */
  ghost predicate Represents(seg: Segment, text: string) {
    && seg.numChars == |text|
    && match seg.mode
       case Numeric => AllDigits(text) && seg.data == NumericBits(text)
       case Alphanumeric => AllAlphanumeric(text) && seg.data == AlphanumericBits(text)
       case Bytes => IsByteString(text) && seg.data == ByteBits(text)
       case _ => false
  }

  /** No segment for the empty text, otherwise one in the narrowest mode that holds every character. */
  ghost predicate IsSegmentation(segs: seq<Segment>, text: string) {
    if text == "" then segs == []
    else
      |segs| == 1 && Represents(segs[0], text)
      && segs[0].mode == if AllDigits(text) then Numeric else if AllAlphanumeric(text) then Alphanumeric else Bytes
  }

  /** At most one segment, in the densest mode that can write the text; none at all for too many bytes. */
  method MakeSegments(text: string) returns (result: Option<seq<Segment>>)
    requires IsCString(text)
    ensures result.None? <==> !AllDigits(text) && !AllAlphanumeric(text) && |text| > INT_MAX
    ensures result.Some? ==> IsSegmentation(result.value, text)
  {
    if text == "" {
      return Some([]);
    }
    var numeric := IsNumeric(text);
    if numeric {
      var seg := MakeNumeric(text);
      return Some([seg.value]);
    }
    var alphanumeric := IsAlphanumeric(text);
    if alphanumeric {
      var seg := MakeAlphanumeric(text);
      return Some([seg.value]);
    }
    var seg := MakeBytes(text);
    result := if seg == None then None else Some([seg.value]);
  }
}
