/** The format and version words of ISO/IEC 18004 (tables C.1 and D.1), and how far apart they are. */
module QrWords {
  import opened Crc
  import opened QrPatterns

  /** x when the bit is set. */
  function Times(bit: bv32, x: bv32): bv32 { if bit == 0 then 0 else x }

  // ---------- Format words ----------

  const LOW_WORDS: seq<bv32> := [0x77C4, 0x72F3, 0x7DAA, 0x789D, 0x662F, 0x6318, 0x6C41, 0x6976]
  const MEDIUM_WORDS: seq<bv32> := [0x5412, 0x5125, 0x5E7C, 0x5B4B, 0x45F9, 0x40CE, 0x4F97, 0x4AA0]
  const QUARTILE_WORDS: seq<bv32> := [0x355F, 0x3068, 0x3F31, 0x3A06, 0x24B4, 0x2183, 0x2EDA, 0x2BED]
  const HIGH_WORDS: seq<bv32> := [0x1689, 0x13BE, 0x1CE7, 0x19D0, 0x0762, 0x0255, 0x0D0C, 0x083B]

  /** The word of every level and mask. */
  function StandardFormat(ecl: Ecc, mask: nat): bv32
    requires mask < 8
  {
    match ecl
    case Low => LOW_WORDS[mask]
    case Medium => MEDIUM_WORDS[mask]
    case Quartile => QUARTILE_WORDS[mask]
    case High => HIGH_WORDS[mask]
  }

  /** The code word of five data bits, from the words of its bits. */
  function FormatCode(d: bv32): bv32 {
    Times(d & 1, 0x537) ^ Times(d & 2, 0xA6E) ^ Times(d & 4, 0x11EB) ^ Times(d & 8, 0x23D6) ^ Times(d & 16, 0x429B)
  }

  /** One step of the division. */
  lemma OneStep(d: bv32, n: nat)
    requires FormatRemainder(d, n) < 1024
    ensures FormatRemainder(d, n + 1) < 1024
    ensures var r := FormatRemainder(d, n);
      FormatRemainder(d, n + 1) == if r < 512 then r << 1 else (r << 1) ^ 0x537
  {
    assert FormatRemainder(d, n + 1) == FormatStep(FormatRemainder(d, n));
    hide FormatRemainder;
  }

  lemma ShiftFiveSteps(r: bv32)
    requires r < 512
    ensures FormatStep(r) == r << 1
  {}

  lemma FiveSteps(d: bv32)
    requires d < 32
    ensures FormatRemainder(d, 5) == d << 5 < 1024
  {
    hide FormatStep;
    ShiftFiveSteps(d);
    ShiftFiveSteps(d << 1);
    ShiftFiveSteps(d << 2);
    ShiftFiveSteps(d << 3);
    ShiftFiveSteps(d << 4);
    assert FormatRemainder(d, 0) == d;
    assert FormatRemainder(d, 1) == d << 1;
    assert FormatRemainder(d, 2) == d << 2;
    assert FormatRemainder(d, 3) == d << 3;
    assert FormatRemainder(d, 4) == d << 4;
  }

  lemma RemainderIs(d: bv32)
    requires d < 32
    ensures (d << 10) | FormatRemainder(d, 10) == FormatCode(d)
  {
    hide FormatRemainder, FormatCode;
    FiveSteps(d);
    OneStep(d, 5);
    OneStep(d, 6);
    OneStep(d, 7);
    OneStep(d, 8);
    OneStep(d, 9);
    FiveMore(d, FormatRemainder(d, 6), FormatRemainder(d, 7), FormatRemainder(d, 8), FormatRemainder(d, 9),
        FormatRemainder(d, 10));
  }

  lemma FiveMore(d: bv32, r6: bv32, r7: bv32, r8: bv32, r9: bv32, r10: bv32)
    requires d < 32
    requires r6 == if d << 5 < 512 then (d << 5) << 1 else ((d << 5) << 1) ^ 0x537
    requires r7 == if r6 < 512 then r6 << 1 else (r6 << 1) ^ 0x537
    requires r8 == if r7 < 512 then r7 << 1 else (r7 << 1) ^ 0x537
    requires r9 == if r8 < 512 then r8 << 1 else (r8 << 1) ^ 0x537
    requires r10 == if r9 < 512 then r9 << 1 else (r9 << 1) ^ 0x537
    ensures (d << 10) | r10 == FormatCode(d)
  {}

  /** Every word is the one of the table. */
  lemma FormatIsStandard(ecl: Ecc, mask: nat)
    requires mask < 8
    ensures FormatBits(ecl, mask as bv32) == StandardFormat(ecl, mask)
  {
    hide FormatRemainder;
    var d := FormatData(ecl, mask as bv32);
    RemainderIs(d);
    assert mask == 0 || mask == 1 || mask == 2 || mask == 3 || mask == 4 || mask == 5 || mask == 6 || mask == 7;
  }

  // ---------- Distance ----------

  /** How many of the lowest fifteen bits are ones. */
  function Ones15(x: bv32): bv32 {
    ((x >> 0) & 1) + ((x >> 1) & 1) + ((x >> 2) & 1) + ((x >> 3) & 1) + ((x >> 4) & 1)
    + ((x >> 5) & 1) + ((x >> 6) & 1) + ((x >> 7) & 1) + ((x >> 8) & 1) + ((x >> 9) & 1)
    + ((x >> 10) & 1) + ((x >> 11) & 1) + ((x >> 12) & 1) + ((x >> 13) & 1) + ((x >> 14) & 1)
  }

  /** Different format words differ in at least seven of their fifteen bits. */
  lemma FormatDistance(a: bv32, b: bv32)
    requires a < 32 && b < 32 && a != b
    ensures Ones15((FormatCode(a) ^ 0x5412) ^ (FormatCode(b) ^ 0x5412)) >= 7
  {}

  // ---------- Version words ----------

  /** The words of versions 7 to 40. */
  const VERSION_WORDS: seq<bv32> :=
    [0x07C94, 0x085BC, 0x09A99, 0x0A4D3, 0x0BBF6, 0x0C762, 0x0D847, 0x0E60D, 0x0F928,
     0x10B78, 0x1145D, 0x12A17, 0x13532, 0x149A6, 0x15683, 0x168C9, 0x177EC, 0x18EC4,
     0x191E1, 0x1AFAB, 0x1B08E, 0x1CC1A, 0x1D33F, 0x1ED75, 0x1F250, 0x209D5, 0x216F0,
     0x228BA, 0x2379F, 0x24B0B, 0x2542E, 0x26A64, 0x27541, 0x28C69]

  function VersionCode(d: bv32): bv32 {
    Times(d & 1, 0x1F25) ^ Times(d & 2, 0x216F) ^ Times(d & 4, 0x42DE) ^ Times(d & 8, 0x85BC)
    ^ Times(d & 16, 0x10B78) ^ Times(d & 32, 0x209D5)
  }

  lemma OneVersionStep(d: bv32, n: nat)
    requires VersionRemainder(d, n) < 4096
    ensures VersionRemainder(d, n + 1) < 4096
    ensures var r := VersionRemainder(d, n);
      VersionRemainder(d, n + 1) == if r < 2048 then r << 1 else (r << 1) ^ 0x1F25
  {
    assert VersionRemainder(d, n + 1) == VersionStep(VersionRemainder(d, n));
    hide VersionRemainder;
  }

  lemma ShiftSixSteps(r: bv32)
    requires r < 2048
    ensures VersionStep(r) == r << 1
  {}

  lemma SixSteps(d: bv32)
    requires d < 64
    ensures VersionRemainder(d, 6) == d << 6 < 4096
  {
    hide VersionStep;
    ShiftSixSteps(d);
    ShiftSixSteps(d << 1);
    ShiftSixSteps(d << 2);
    ShiftSixSteps(d << 3);
    ShiftSixSteps(d << 4);
    ShiftSixSteps(d << 5);
    assert VersionRemainder(d, 0) == d;
    assert VersionRemainder(d, 1) == d << 1;
    assert VersionRemainder(d, 2) == d << 2;
    assert VersionRemainder(d, 3) == d << 3;
    assert VersionRemainder(d, 4) == d << 4;
    assert VersionRemainder(d, 5) == d << 5;
  }

  lemma VersionRemainderIs(d: bv32)
    requires d < 64
    ensures VersionWord(d, VersionRemainder(d, 12)) == VersionCode(d)
  {
    hide VersionRemainder, VersionCode, VersionWord;
    SixSteps(d);
    OneVersionStep(d, 6);
    OneVersionStep(d, 7);
    OneVersionStep(d, 8);
    OneVersionStep(d, 9);
    OneVersionStep(d, 10);
    OneVersionStep(d, 11);
    SixMore(d, VersionRemainder(d, 7), VersionRemainder(d, 8), VersionRemainder(d, 9), VersionRemainder(d, 10),
        VersionRemainder(d, 11), VersionRemainder(d, 12));
  }

  lemma SixMore(d: bv32, r7: bv32, r8: bv32, r9: bv32, r10: bv32, r11: bv32, r12: bv32)
    requires d < 64
    requires r7 == if d << 6 < 2048 then (d << 6) << 1 else ((d << 6) << 1) ^ 0x1F25
    requires r8 == if r7 < 2048 then r7 << 1 else (r7 << 1) ^ 0x1F25
    requires r9 == if r8 < 2048 then r8 << 1 else (r8 << 1) ^ 0x1F25
    requires r10 == if r9 < 2048 then r9 << 1 else (r9 << 1) ^ 0x1F25
    requires r11 == if r10 < 2048 then r10 << 1 else (r10 << 1) ^ 0x1F25
    requires r12 == if r11 < 2048 then r11 << 1 else (r11 << 1) ^ 0x1F25
    ensures VersionWord(d, r12) == VersionCode(d)
  {}

  lemma Versions7(version: nat)
    requires 7 <= version < 16
    ensures VersionCode(version as bv32) == VERSION_WORDS[version - 7]
  {
    assert version == 7 || version == 8 || version == 9 || version == 10 || version == 11
        || version == 12 || version == 13 || version == 14 || version == 15;
  }

  lemma Versions16(version: nat)
    requires 16 <= version < 25
    ensures VersionCode(version as bv32) == VERSION_WORDS[version - 7]
  {
    assert version == 16 || version == 17 || version == 18 || version == 19 || version == 20
        || version == 21 || version == 22 || version == 23 || version == 24;
  }

  lemma Versions25(version: nat)
    requires 25 <= version < 34
    ensures VersionCode(version as bv32) == VERSION_WORDS[version - 7]
  {
    assert version == 25 || version == 26 || version == 27 || version == 28 || version == 29
        || version == 30 || version == 31 || version == 32 || version == 33;
  }

  lemma Versions34(version: nat)
    requires 34 <= version < 41
    ensures VersionCode(version as bv32) == VERSION_WORDS[version - 7]
  {
    assert version == 34 || version == 35 || version == 36 || version == 37 || version == 38
        || version == 39 || version == 40;
  }

  /** Every version from 7 on has the word of the table. */
  lemma VersionIsStandard(version: nat)
    requires 7 <= version <= 40
    ensures VersionBits(version) == VERSION_WORDS[version - 7]
  {
    hide VersionRemainder, VersionCode, VersionWord;
    assert (version as bv32) < 64;
    VersionRemainderIs(version as bv32);
    if version < 16 {
      Versions7(version);
    } else if version < 25 {
      Versions16(version);
    } else if version < 34 {
      Versions25(version);
    } else {
      Versions34(version);
    }
  }

  /** How many of the lowest eighteen bits are ones. */
  function Ones18(x: bv32): bv32 { Ones15(x) + ((x >> 15) & 1) + ((x >> 16) & 1) + ((x >> 17) & 1) }

  lemma VersionWeight(d: bv32)
    requires 0 < d < 64
    ensures Ones18(VersionCode(d)) >= 8
  {}

  function Twice(r: bv32): bv32 { r << 1 }

  predicate Top(r: bv32) { r & 2048 != 0 }

  function NextStep(r: bv32): bv32 { if Top(r) then Xor(0x1F25, Twice(r)) else Twice(r) }

  predicate Below12(r: bv32) { r < 4096 }

  lemma TwiceXor(r: bv32, s: bv32)
    ensures Twice(Xor(r, s)) == Xor(Twice(r), Twice(s))
    ensures Top(Xor(r, s)) <==> Top(r) != Top(s)
  {}

  lemma NextStepXor(r: bv32, s: bv32)
    ensures NextStep(Xor(r, s)) == Xor(NextStep(r), NextStep(s))
  {
    hide Xor, Twice, Top;
    TwiceXor(r, s);
    XorAssoc(0x1F25, Twice(r), Twice(s));
    XorSwap(0x1F25, Twice(r), Twice(s));
    XorCancel(0x1F25, Twice(r), Twice(s));
  }

  lemma StepIs(r: bv32)
    requires Below12(r)
    ensures NextStep(r) == (if r < 2048 then r << 1 else (r << 1) ^ 0x1F25)
  {}

  lemma NextIsStep(d: bv32, n: nat)
    requires Below12(VersionRemainder(d, n))
    ensures VersionRemainder(d, n + 1) == NextStep(VersionRemainder(d, n)) && Below12(VersionRemainder(d, n + 1))
  {
    hide VersionRemainder, NextStep;
    OneVersionStep(d, n);
    StepIs(VersionRemainder(d, n));
  }

  lemma BelowXor(r: bv32, s: bv32)
    requires Below12(r) && Below12(s)
    ensures Below12(Xor(r, s))
  {}

  lemma {:induction false} RemainderXor(a: bv32, b: bv32, n: nat)
    requires Below12(a) && Below12(b)
    ensures Below12(VersionRemainder(a, n)) && Below12(VersionRemainder(b, n))
    ensures VersionRemainder(Xor(a, b), n) == Xor(VersionRemainder(a, n), VersionRemainder(b, n))
  {
    hide Below12, Xor, NextStep, VersionStep;
    if n > 0 {
      RemainderXor(a, b, n - 1);
      hide VersionRemainder;
      NextStepXor(VersionRemainder(a, n - 1), VersionRemainder(b, n - 1));
      BelowXor(VersionRemainder(a, n - 1), VersionRemainder(b, n - 1));
      NextIsStep(a, n - 1);
      NextIsStep(b, n - 1);
      NextIsStep(Xor(a, b), n - 1);
    }
  }

  function Raised(d: bv32): bv32 { d << 12 }

  lemma WordIsXor(d: bv32, r: bv32)
    requires Below12(r)
    ensures VersionWord(d, r) == Xor(Raised(d), r)
  {
    assert (d << 12) | r == (d << 12) ^ r;
  }

  lemma RaisedXor(a: bv32, b: bv32)
    ensures Raised(Xor(a, b)) == Xor(Raised(a), Raised(b))
  {}

  lemma WordXor(a: bv32, b: bv32, r: bv32, s: bv32)
    requires Below12(r) && Below12(s)
    ensures VersionWord(Xor(a, b), Xor(r, s)) == Xor(VersionWord(a, r), VersionWord(b, s))
  {
    hide Xor, Raised, VersionWord, Below12;
    BelowXor(r, s);
    WordIsXor(a, r);
    WordIsXor(b, s);
    WordIsXor(Xor(a, b), Xor(r, s));
    RaisedXor(a, b);
    var x, y := Raised(a), Raised(b);
    XorAssoc(x, y, Xor(r, s));
    XorSwap(y, r, s);
    XorAssoc(x, r, Xor(y, s));
  }

  lemma SmallXor(a: bv32, b: bv32)
    requires a < 64 && b < 64 && a != b
    ensures 0 < Xor(a, b) < 64 && Below12(a) && Below12(b)
  {}

  /** Words of different versions differ in at least eight of their eighteen bits. */
  lemma VersionDistance(a: bv32, b: bv32)
    requires a < 64 && b < 64 && a != b
    ensures Ones18(Xor(VersionWord(a, VersionRemainder(a, 12)), VersionWord(b, VersionRemainder(b, 12)))) >= 8
  {
    hide VersionCode, Ones18, VersionRemainder, VersionWord, Xor, Below12;
    SmallXor(a, b);
    RemainderXor(a, b, 12);
    WordXor(a, b, VersionRemainder(a, 12), VersionRemainder(b, 12));
    VersionRemainderIs(Xor(a, b));
    VersionWeight(Xor(a, b));
  }
}
