/** CRC-32 by table (RFC 2083 section 3.4): the 256 stored constants and the byte loop compute the
    bit-by-bit remainder. */
module Crc {
  import opened Inflate

  function Xor(a: bv32, b: bv32): bv32 { a ^ b }

  function Half(c: bv32): bv32 { c >> 1 }

  predicate Odd(c: bv32) { c & 1 == 1 }

  /** One bit of the division by the reflected CRC-32 polynomial. */
  function BitStep(c: bv32): bv32 {
    if Odd(c) then Xor(0xEDB88320, Half(c)) else Half(c)
  }

  /** One byte of the division. */
  function Eight(c: bv32): bv32 {
    BitStep(BitStep(BitStep(BitStep(BitStep(BitStep(BitStep(BitStep(c))))))))
  }

  function Word(b: Byte): bv32 { b as bv32 }

  function Complement(c: bv32): nat { (c ^ 0xFFFF_FFFF) as nat }

  /** The register after dividing the bytes bit by bit, least significant bit first. */
  function Register(data: seq<Byte>): bv32 {
    if data == [] then 0xFFFF_FFFF
    else Eight(Xor(Register(data[..|data| - 1]), Word(data[|data| - 1])))
  }

  /** The bit-serial CRC-32. */
  function Crc32(data: seq<Byte>): nat { Complement(Register(data)) }

  // ---------- The division is linear ----------

  lemma HalfXor(a: bv32, b: bv32)
    ensures Half(Xor(a, b)) == Xor(Half(a), Half(b))
    ensures Odd(Xor(a, b)) <==> Odd(a) != Odd(b)
  {}

  lemma XorAssoc(p: bv32, x: bv32, y: bv32)
    ensures Xor(p, Xor(x, y)) == Xor(Xor(p, x), y)
  {
    assert p ^ (x ^ y) == (p ^ x) ^ y;
  }

  lemma XorSwap(p: bv32, x: bv32, y: bv32)
    ensures Xor(p, Xor(x, y)) == Xor(x, Xor(p, y))
  {
    assert p ^ (x ^ y) == x ^ (p ^ y);
  }

  lemma XorSelf(p: bv32, x: bv32)
    ensures Xor(p, p) == 0 && Xor(0, x) == x
  {}

  lemma XorCancel(p: bv32, x: bv32, y: bv32)
    ensures Xor(x, y) == Xor(Xor(p, x), Xor(p, y))
  {
    hide Xor;
    var xy := Xor(x, y);
    XorAssoc(p, x, Xor(p, y));
    XorSwap(p, x, y);
    XorAssoc(p, p, xy);
    XorSelf(p, xy);
  }

  lemma BitStepXor(a: bv32, b: bv32)
    ensures BitStep(Xor(a, b)) == Xor(BitStep(a), BitStep(b))
  {
    hide Xor, Half, Odd;
    HalfXor(a, b);
    XorAssoc(0xEDB88320, Half(a), Half(b));
    XorSwap(0xEDB88320, Half(a), Half(b));
    XorCancel(0xEDB88320, Half(a), Half(b));
  }

  lemma EightXor(a: bv32, b: bv32)
    ensures Eight(Xor(a, b)) == Xor(Eight(a), Eight(b))
  {
    hide BitStep, Xor;
    var a1, b1 := BitStep(a), BitStep(b);
    var a2, b2 := BitStep(a1), BitStep(b1);
    var a3, b3 := BitStep(a2), BitStep(b2);
    var a4, b4 := BitStep(a3), BitStep(b3);
    var a5, b5 := BitStep(a4), BitStep(b4);
    var a6, b6 := BitStep(a5), BitStep(b5);
    var a7, b7 := BitStep(a6), BitStep(b6);
    BitStepXor(a, b);
    BitStepXor(a1, b1);
    BitStepXor(a2, b2);
    BitStepXor(a3, b3);
    BitStepXor(a4, b4);
    BitStepXor(a5, b5);
    BitStepXor(a6, b6);
    BitStepXor(a7, b7);
  }

  /** Without low bits the division only shifts. */
  lemma HighPartShifts(c: bv32)
    ensures Eight(c & 0xFFFF_FF00) == c >> 8
  {}

  lemma SplitRegister(c: bv32, b: bv32)
    requires b < 256
    ensures c ^ b == (c & 0xFFFF_FF00) ^ (b ^ (c & 0xFF)) && b ^ (c & 0xFF) < 256
  {}

  // ---------- The table ----------

  function Row0(): seq<bv32> {
    [ 0x00000000, 0x77073096, 0xEE0E612C, 0x990951BA,
      0x076DC419, 0x706AF48F, 0xE963A535, 0x9E6495A3,
      0x0EDB8832, 0x79DCB8A4, 0xE0D5E91E, 0x97D2D988,
      0x09B64C2B, 0x7EB17CBD, 0xE7B82D07, 0x90BF1D91 ]
  }

  function Row1(): seq<bv32> {
    [ 0x1DB71064, 0x6AB020F2, 0xF3B97148, 0x84BE41DE,
      0x1ADAD47D, 0x6DDDE4EB, 0xF4D4B551, 0x83D385C7,
      0x136C9856, 0x646BA8C0, 0xFD62F97A, 0x8A65C9EC,
      0x14015C4F, 0x63066CD9, 0xFA0F3D63, 0x8D080DF5 ]
  }

  function Row2(): seq<bv32> {
    [ 0x3B6E20C8, 0x4C69105E, 0xD56041E4, 0xA2677172,
      0x3C03E4D1, 0x4B04D447, 0xD20D85FD, 0xA50AB56B,
      0x35B5A8FA, 0x42B2986C, 0xDBBBC9D6, 0xACBCF940,
      0x32D86CE3, 0x45DF5C75, 0xDCD60DCF, 0xABD13D59 ]
  }

  function Row3(): seq<bv32> {
    [ 0x26D930AC, 0x51DE003A, 0xC8D75180, 0xBFD06116,
      0x21B4F4B5, 0x56B3C423, 0xCFBA9599, 0xB8BDA50F,
      0x2802B89E, 0x5F058808, 0xC60CD9B2, 0xB10BE924,
      0x2F6F7C87, 0x58684C11, 0xC1611DAB, 0xB6662D3D ]
  }

  function Row4(): seq<bv32> {
    [ 0x76DC4190, 0x01DB7106, 0x98D220BC, 0xEFD5102A,
      0x71B18589, 0x06B6B51F, 0x9FBFE4A5, 0xE8B8D433,
      0x7807C9A2, 0x0F00F934, 0x9609A88E, 0xE10E9818,
      0x7F6A0DBB, 0x086D3D2D, 0x91646C97, 0xE6635C01 ]
  }

  function Row5(): seq<bv32> {
    [ 0x6B6B51F4, 0x1C6C6162, 0x856530D8, 0xF262004E,
      0x6C0695ED, 0x1B01A57B, 0x8208F4C1, 0xF50FC457,
      0x65B0D9C6, 0x12B7E950, 0x8BBEB8EA, 0xFCB9887C,
      0x62DD1DDF, 0x15DA2D49, 0x8CD37CF3, 0xFBD44C65 ]
  }

  function Row6(): seq<bv32> {
    [ 0x4DB26158, 0x3AB551CE, 0xA3BC0074, 0xD4BB30E2,
      0x4ADFA541, 0x3DD895D7, 0xA4D1C46D, 0xD3D6F4FB,
      0x4369E96A, 0x346ED9FC, 0xAD678846, 0xDA60B8D0,
      0x44042D73, 0x33031DE5, 0xAA0A4C5F, 0xDD0D7CC9 ]
  }

  function Row7(): seq<bv32> {
    [ 0x5005713C, 0x270241AA, 0xBE0B1010, 0xC90C2086,
      0x5768B525, 0x206F85B3, 0xB966D409, 0xCE61E49F,
      0x5EDEF90E, 0x29D9C998, 0xB0D09822, 0xC7D7A8B4,
      0x59B33D17, 0x2EB40D81, 0xB7BD5C3B, 0xC0BA6CAD ]
  }

  function Row8(): seq<bv32> {
    [ 0xEDB88320, 0x9ABFB3B6, 0x03B6E20C, 0x74B1D29A,
      0xEAD54739, 0x9DD277AF, 0x04DB2615, 0x73DC1683,
      0xE3630B12, 0x94643B84, 0x0D6D6A3E, 0x7A6A5AA8,
      0xE40ECF0B, 0x9309FF9D, 0x0A00AE27, 0x7D079EB1 ]
  }

  function Row9(): seq<bv32> {
    [ 0xF00F9344, 0x8708A3D2, 0x1E01F268, 0x6906C2FE,
      0xF762575D, 0x806567CB, 0x196C3671, 0x6E6B06E7,
      0xFED41B76, 0x89D32BE0, 0x10DA7A5A, 0x67DD4ACC,
      0xF9B9DF6F, 0x8EBEEFF9, 0x17B7BE43, 0x60B08ED5 ]
  }

  function Row10(): seq<bv32> {
    [ 0xD6D6A3E8, 0xA1D1937E, 0x38D8C2C4, 0x4FDFF252,
      0xD1BB67F1, 0xA6BC5767, 0x3FB506DD, 0x48B2364B,
      0xD80D2BDA, 0xAF0A1B4C, 0x36034AF6, 0x41047A60,
      0xDF60EFC3, 0xA867DF55, 0x316E8EEF, 0x4669BE79 ]
  }

  function Row11(): seq<bv32> {
    [ 0xCB61B38C, 0xBC66831A, 0x256FD2A0, 0x5268E236,
      0xCC0C7795, 0xBB0B4703, 0x220216B9, 0x5505262F,
      0xC5BA3BBE, 0xB2BD0B28, 0x2BB45A92, 0x5CB36A04,
      0xC2D7FFA7, 0xB5D0CF31, 0x2CD99E8B, 0x5BDEAE1D ]
  }

  function Row12(): seq<bv32> {
    [ 0x9B64C2B0, 0xEC63F226, 0x756AA39C, 0x026D930A,
      0x9C0906A9, 0xEB0E363F, 0x72076785, 0x05005713,
      0x95BF4A82, 0xE2B87A14, 0x7BB12BAE, 0x0CB61B38,
      0x92D28E9B, 0xE5D5BE0D, 0x7CDCEFB7, 0x0BDBDF21 ]
  }

  function Row13(): seq<bv32> {
    [ 0x86D3D2D4, 0xF1D4E242, 0x68DDB3F8, 0x1FDA836E,
      0x81BE16CD, 0xF6B9265B, 0x6FB077E1, 0x18B74777,
      0x88085AE6, 0xFF0F6A70, 0x66063BCA, 0x11010B5C,
      0x8F659EFF, 0xF862AE69, 0x616BFFD3, 0x166CCF45 ]
  }

  function Row14(): seq<bv32> {
    [ 0xA00AE278, 0xD70DD2EE, 0x4E048354, 0x3903B3C2,
      0xA7672661, 0xD06016F7, 0x4969474D, 0x3E6E77DB,
      0xAED16A4A, 0xD9D65ADC, 0x40DF0B66, 0x37D83BF0,
      0xA9BCAE53, 0xDEBB9EC5, 0x47B2CF7F, 0x30B5FFE9 ]
  }

  function Row15(): seq<bv32> {
    [ 0xBDBDF21C, 0xCABAC28A, 0x53B39330, 0x24B4A3A6,
      0xBAD03605, 0xCDD70693, 0x54DE5729, 0x23D967BF,
      0xB3667A2E, 0xC4614AB8, 0x5D681B02, 0x2A6F2B94,
      0xB40BBE37, 0xC30C8EA1, 0x5A05DF1B, 0x2D02EF8D ]
  }

  /** Sixteen rows of sixteen stored constants. */
  function Row(h: nat): (row: seq<bv32>)
    requires h < 16
    ensures |row| == 16
  {
    match h
    case 0 => Row0()
    case 1 => Row1()
    case 2 => Row2()
    case 3 => Row3()
    case 4 => Row4()
    case 5 => Row5()
    case 6 => Row6()
    case 7 => Row7()
    case 8 => Row8()
    case 9 => Row9()
    case 10 => Row10()
    case 11 => Row11()
    case 12 => Row12()
    case 13 => Row13()
    case 14 => Row14()
    case _ => Row15()
  }

  /** Entry l of row h. */
  function Entry(h: bv32, l: bv32): bv32
    requires h < 16 && l < 16
  {
    Row(h as nat)[l as nat]
  }

  /** Entry x of the table. */
  function Table(x: bv32): bv32
    requires x < 256
  {
    SplitIndex(x);
    Entry(x >> 4, x & 15)
  }

  /** The index at place l of row h. */
  function Place(h: bv32, l: bv32): bv32 { (h << 4) | l }

  lemma Row0Entries(l: bv32)
    requires l < 16
    ensures Entry(0, l) == Eight(Place(0, l))
  {}

  lemma Row1Entries(l: bv32)
    requires l < 16
    ensures Entry(1, l) == Eight(Place(1, l))
  {}

  lemma Row2Entries(l: bv32)
    requires l < 16
    ensures Entry(2, l) == Eight(Place(2, l))
  {}

  lemma Row3Entries(l: bv32)
    requires l < 16
    ensures Entry(3, l) == Eight(Place(3, l))
  {}

  lemma Row4Entries(l: bv32)
    requires l < 16
    ensures Entry(4, l) == Eight(Place(4, l))
  {}

  lemma Row5Entries(l: bv32)
    requires l < 16
    ensures Entry(5, l) == Eight(Place(5, l))
  {}

  lemma Row6Entries(l: bv32)
    requires l < 16
    ensures Entry(6, l) == Eight(Place(6, l))
  {}

  lemma Row7Entries(l: bv32)
    requires l < 16
    ensures Entry(7, l) == Eight(Place(7, l))
  {}

  lemma Row8Entries(l: bv32)
    requires l < 16
    ensures Entry(8, l) == Eight(Place(8, l))
  {}

  lemma Row9Entries(l: bv32)
    requires l < 16
    ensures Entry(9, l) == Eight(Place(9, l))
  {}

  lemma Row10Entries(l: bv32)
    requires l < 16
    ensures Entry(10, l) == Eight(Place(10, l))
  {}

  lemma Row11Entries(l: bv32)
    requires l < 16
    ensures Entry(11, l) == Eight(Place(11, l))
  {}

  lemma Row12Entries(l: bv32)
    requires l < 16
    ensures Entry(12, l) == Eight(Place(12, l))
  {}

  lemma Row13Entries(l: bv32)
    requires l < 16
    ensures Entry(13, l) == Eight(Place(13, l))
  {}

  lemma Row14Entries(l: bv32)
    requires l < 16
    ensures Entry(14, l) == Eight(Place(14, l))
  {}

  lemma Row15Entries(l: bv32)
    requires l < 16
    ensures Entry(15, l) == Eight(Place(15, l))
  {}

  lemma SplitIndex(x: bv32)
    requires x < 256
    ensures x >> 4 < 16 && x & 15 < 16 && x == Place(x >> 4, x & 15)
  {}

  lemma LowRows(h: bv32, l: bv32)
    requires h < 8 && l < 16
    ensures Entry(h, l) == Eight(Place(h, l))
  {
    hide Eight, Entry, Place;
    if h == 0 {
      Row0Entries(l);
    } else if h == 1 {
      Row1Entries(l);
    } else if h == 2 {
      Row2Entries(l);
    } else if h == 3 {
      Row3Entries(l);
    } else if h == 4 {
      Row4Entries(l);
    } else if h == 5 {
      Row5Entries(l);
    } else if h == 6 {
      Row6Entries(l);
    } else {
      Row7Entries(l);
    }
  }

  lemma HighRows(h: bv32, l: bv32)
    requires 8 <= h < 16 && l < 16
    ensures Entry(h, l) == Eight(Place(h, l))
  {
    hide Eight, Entry, Place;
    if h == 8 {
      Row8Entries(l);
    } else if h == 9 {
      Row9Entries(l);
    } else if h == 10 {
      Row10Entries(l);
    } else if h == 11 {
      Row11Entries(l);
    } else if h == 12 {
      Row12Entries(l);
    } else if h == 13 {
      Row13Entries(l);
    } else if h == 14 {
      Row14Entries(l);
    } else {
      Row15Entries(l);
    }
  }

  /** The table holds the remainders of all bytes. */
  lemma TableEntry(x: bv32)
    requires x < 256
    ensures Table(x) == Eight(x)
  {
    SplitIndex(x);
    hide Eight, Entry, Place;
    if x >> 4 < 8 {
      LowRows(x >> 4, x & 15);
    } else {
      HighRows(x >> 4, x & 15);
    }
  }

  // ---------- The byte loop ----------

  lemma ByteIsSmall(b: Byte)
    ensures Word(b) < 256
  {}

  function TableIndex(c: bv32, b: bv32): (x: bv32)
    requires b < 256
    ensures x < 256
  {
    b ^ (c & 0xFF)
  }

  /** One table step does the work of eight bit steps. */
  lemma TableStep(c: bv32, b: bv32)
    requires b < 256
    ensures Xor(c >> 8, Table(TableIndex(c, b))) == Eight(Xor(c, b))
  {
    SplitRegister(c, b);
    HighPartShifts(c);
    var x, high := TableIndex(c, b), c & 0xFFFF_FF00;
    assert Xor(c, b) == Xor(high, x);
    hide Xor, Table, Eight;
    TableEntry(x);
    EightXor(high, x);
  }

  method ComputeCrc(buffer: array<Byte>, start: nat, len: nat) returns (sum: nat)
    requires start + len <= buffer.Length
    ensures sum == Crc32(buffer[start..start + len])
  {
    hide Xor, Table, Eight, TableIndex, Word, Complement, Register;
    var crc: bv32 := 0xFFFF_FFFF;
    EmptyRegister();
    ghost var data := buffer[start..start + len];
    for i := 0 to len
      invariant crc == Register(data[..i])
    {
      var b := Word(buffer[start + i]);
      ByteIsSmall(buffer[start + i]);
      RegisterNext(data, i);
      TableStep(crc, b);
      crc := Xor(crc >> 8, Table(TableIndex(crc, b)));
    }
    assert data[..len] == data;
    sum := Complement(crc);
  }

  lemma EmptyRegister()
    ensures Register([]) == 0xFFFF_FFFF
  {}

  lemma RegisterNext(data: seq<Byte>, i: nat)
    requires i < |data|
    ensures Register(data[..i + 1]) == Eight(Xor(Register(data[..i]), Word(data[i])))
  {
    hide Xor, Eight, Word;
    assert data[..i + 1][..i] == data[..i];
  }
}
