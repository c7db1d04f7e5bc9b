/** Fixed values of RFC 2083: the signature, the chunk names, the empty end chunk, the header of a picture,
    and the filters as equations on bytes. */
module PngStandard {
  import opened Arithmetic
  import opened Inflate
  import opened Crc
  import opened PngFilter
  import opened Png

  // ---------- Checksums ----------

  /** The register after one more byte, from a stored constant. */
  lemma NextRegister(data: seq<Byte>, b: Byte, c: bv32, x: bv32, t: bv32, next: bv32)
    requires Register(data) == c && x < 256 && x == Word(b) ^ (c & 0xFF) && Table(x) == t && next == (c >> 8) ^ t
    ensures Register(data + [b]) == next
  {
    ByteIsSmall(b);
    IndexIs(c, Word(b), x);
    ShiftXor(c, t, next);
    hide Register, Table, Eight, Xor, TableIndex, Word;
    RegisterOf(data, b);
    TableStep(c, Word(b));
  }

  lemma IndexIs(c: bv32, b: bv32, x: bv32)
    requires b < 256 && x == b ^ (c & 0xFF)
    ensures TableIndex(c, b) == x
  {}

  lemma ShiftXor(c: bv32, t: bv32, next: bv32)
    requires next == (c >> 8) ^ t
    ensures Xor(c >> 8, t) == next
  {}

  lemma RegisterOf(data: seq<Byte>, b: Byte)
    ensures Register(data + [b]) == Eight(Xor(Register(data), Word(b)))
  {
    hide Eight, Xor, Word;
    assert (data + [b])[..|data|] == data;
  }

  lemma EndEntries()
    ensures Table(0xB6) == 0x220216B9 && Table(0x03) == 0x990951BA
    ensures Table(0x1D) == 0x63066CD9 && Table(0x31) == 0x51DE003A
  {}

  lemma EndWords()
    ensures 0xB6 == Word(73) ^ (0xFFFF_FFFF & 0xFF) && 0x03 == Word(69) ^ (0x22FDE946 & 0xFF)
    ensures 0x1D == Word(78) ^ (0x992BAC53 & 0xFF) && 0x31 == Word(68) ^ (0x639F4775 & 0xFF)
  {}

  lemma EndSteps()
    ensures 0x22FDE946 == (0xFFFF_FFFF as bv32 >> 8) ^ 0x220216B9
    ensures 0x992BAC53 == (0x22FDE946 as bv32 >> 8) ^ 0x990951BA
    ensures 0x639F4775 == (0x992BAC53 as bv32 >> 8) ^ 0x63066CD9
    ensures 0x51BD9F7D == (0x639F4775 as bv32 >> 8) ^ 0x51DE003A
    ensures Complement(0x51BD9F7D) == 0xAE426082
  {}

  /** The checksum of the end chunk, which is the same in every file. */
  lemma EndChecksum()
    ensures Crc32(IEND) == 0xAE426082
  {
    EmptyRegister();
    EndWords();
    EndSteps();
    EndEntries();
    hide Register, Table, Word, Complement, Xor, TableIndex, Eight;
    var one: seq<Byte>, two: seq<Byte>, three: seq<Byte> := [73], [73, 69], [73, 69, 78];
    assert [] + [73] == one && one + [69] == two && two + [78] == three && three + [68] == IEND;
    NextRegister([], 73, 0xFFFF_FFFF, 0xB6, 0x220216B9, 0x22FDE946);
    NextRegister(one, 69, 0x22FDE946, 0x03, 0x990951BA, 0x992BAC53);
    NextRegister(two, 78, 0x992BAC53, 0x1D, 0x63066CD9, 0x639F4775);
    NextRegister(three, 68, 0x639F4775, 0x31, 0x51DE003A, 0x51BD9F7D);
  }

  /** Every file ends in these twelve bytes. */
  lemma EndChunk()
    ensures ChunkBytes(IEND, []) == [0, 0, 0, 0, 73, 69, 78, 68, 0xAE, 0x42, 0x60, 0x82]
  {
    hide Crc32;
    EndChecksum();
    assert IEND + [] == IEND;
  }

  // ---------- Names and header ----------

  /** The characters of a name. */
  function Ascii(s: string): (b: seq<Byte>)
    requires forall i :: 0 <= i < |s| ==> s[i] < 128 as char
  {
    seq(|s|, i requires 0 <= i < |s| => s[i] as int)
  }

  lemma Names()
    ensures SIGNATURE == [137] + Ascii("PNG\r\n") + [26] + Ascii("\n")
    ensures IHDR == Ascii("IHDR") && IDAT == Ascii("IDAT") && IEND == Ascii("IEND")
  {}

  /** Width and height, highest byte first, eight bits a sample, the colour type, and three zeros. */
  lemma HeaderIs(p: Picture)
    requires 1 <= p.n <= 4 && p.width < 0x8000_0000 && p.height < 0x8000_0000
    ensures var h := Header(p);
      && |h| == 13 && h[8] == 8 && h[10..] == [0, 0, 0]
      && h[9] == (if p.n == 1 then 0 else if p.n == 2 then 4 else if p.n == 3 then 2 else 6)
      && p.width == h[0] as nat * 0x100_0000 + h[1] as nat * 0x1_0000 + h[2] as nat * 0x100 + h[3] as nat
      && p.height == h[4] as nat * 0x100_0000 + h[5] as nat * 0x1_0000 + h[6] as nat * 0x100 + h[7] as nat
  {
    hide Be32;
    WordIs(p.width);
    WordIs(p.height);
  }

  lemma WordIs(v: nat)
    requires v < 0x8000_0000
    ensures var b := Be32(v);
      v == b[0] as nat * 0x100_0000 + b[1] as nat * 0x1_0000 + b[2] as nat * 0x100 + b[3] as nat
  {
    hide Be32;
    WordReadBack(v);
  }

  // ---------- Filters ----------

  /** Line y of the file is row y of the picture, or row y from the bottom. */
  lemma LineIsRow(p: Picture, y: nat, k: nat)
    requires p.Valid() && y < p.height && k < p.width * p.n
    ensures var row := if p.flip then p.height - 1 - y else y;
      0 <= p.stride * row + k < |p.pixels| && Line(p, y)[k] == p.pixels[p.stride * row + k]
  {
    RowInside(p, RowIndex(p, y));
  }

  /** What a filtered byte is, with x the byte, a to its left, b above and c above a. */
  lemma FilteredByte(t: nat, n: nat, line: seq<Byte>, prior: seq<Byte>, i: nat)
    requires n > 0 && t <= 4 && i < |line| <= |prior|
    ensures var x, a, b, c := line[i], if i < n then 0 else line[i - n], prior[i], if i < n then 0 else prior[i - n];
      var f := Filtered(t, n, line, prior)[i];
      && (t == 0 ==> f == x)
      && (t == 1 ==> f == (x - a) % 256)
      && (t == 2 ==> f == (x - b) % 256)
      && (t == 3 ==> f == (x - (a + b) / 2) % 256)
      && (t == 4 ==> f == (x - Paeth(a, b, c)) % 256)
  {
    hide Paeth;
  }

  /** A filtered byte counts with its distance from zero modulo 256. */
  lemma MagnitudeIsDistance(b: Byte)
    ensures SignedAbs(b) == Min(b, 256 - b)
  {}
}
