/** Codewords as bit strings, most significant bit first. */
module QrBits {

  function BitOf(b: bv8, i: nat): bool
    requires i < 8
  {
    (b >> i) & 1 == 1
  }

  function CodewordBits(data: seq<bv8>): (bits: seq<bool>)
    ensures |bits| == 8 * |data|
  {
    seq(8 * |data|, i requires 0 <= i < 8 * |data| => BitOf(data[i / 8], 7 - i % 8))
  }

  lemma BytesEqual(a: bv8, b: bv8)
    requires forall j :: 0 <= j < 8 ==> BitOf(a, j) == BitOf(b, j)
    ensures a == b
  {
    assert BitOf(a, 0) == BitOf(b, 0) && BitOf(a, 1) == BitOf(b, 1) && BitOf(a, 2) == BitOf(b, 2)
        && BitOf(a, 3) == BitOf(b, 3);
    assert BitOf(a, 4) == BitOf(b, 4) && BitOf(a, 5) == BitOf(b, 5) && BitOf(a, 6) == BitOf(b, 6)
        && BitOf(a, 7) == BitOf(b, 7);
  }

  /** Equal bits come from equal codewords. */
  lemma CodewordsDetermined(a: seq<bv8>, b: seq<bv8>)
    requires |a| == |b| && CodewordBits(a) == CodewordBits(b)
    ensures a == b
  {
    hide BitOf;
    forall k | 0 <= k < |a|
      ensures a[k] == b[k]
    {
      forall j | 0 <= j < 8
        ensures BitOf(a[k], j) == BitOf(b[k], j)
      {
        var i := 8 * k + 7 - j;
        assert i / 8 == k && 7 - i % 8 == j;
        assert CodewordBits(a)[i] == CodewordBits(b)[i];
      }
      BytesEqual(a[k], b[k]);
    }
  }

  /** Sets bit m if c holds. */
  function OrBit(b: bv8, c: bool, m: nat): bv8
    requires m < 8
  {
    b | ((if c then 1 else 0) << m)
  }

  lemma OrLowBitAt(b: bv8, c: bool, m: nat, j: nat)
    requires m < 4 && j < 8
    ensures BitOf(OrBit(b, c, m), j) == if j == m then BitOf(b, j) || c else BitOf(b, j)
  {
    assert m == 0 || m == 1 || m == 2 || m == 3;
    assert j == 0 || j == 1 || j == 2 || j == 3 || j == 4 || j == 5 || j == 6 || j == 7;
  }

  lemma OrHighBitAt(b: bv8, c: bool, m: nat, j: nat)
    requires 4 <= m < 8 && j < 8
    ensures BitOf(OrBit(b, c, m), j) == if j == m then BitOf(b, j) || c else BitOf(b, j)
  {
    assert m == 4 || m == 5 || m == 6 || m == 7;
    assert j == 0 || j == 1 || j == 2 || j == 3 || j == 4 || j == 5 || j == 6 || j == 7;
  }

  lemma OrBitAt(b: bv8, c: bool, m: nat, j: nat)
    requires m < 8 && j < 8
    ensures BitOf(OrBit(b, c, m), j) == if j == m then BitOf(b, j) || c else BitOf(b, j)
  {
    hide BitOf, OrBit;
    if m < 4 {
      OrLowBitAt(b, c, m, j);
    } else {
      OrHighBitAt(b, c, m, j);
    }
  }

  lemma NoBits(j: nat)
    requires j < 8
    ensures !BitOf(0, j)
  {
    assert j == 0 || j == 1 || j == 2 || j == 3 || j == 4 || j == 5 || j == 6 || j == 7;
  }

  /** The byte with the given eight bits, highest first. */
  function ByteOf(bits: seq<bool>): bv8
    requires |bits| == 8
  {
    OrBit(OrBit(OrBit(OrBit(OrBit(OrBit(OrBit(OrBit(0, bits[0], 7), bits[1], 6), bits[2], 5), bits[3], 4), bits[4], 3),
      bits[5], 2), bits[6], 1), bits[7], 0)
  }

  function PackCodewords(bits: seq<bool>): (data: seq<bv8>)
    requires |bits| % 8 == 0
    ensures 8 * |data| == |bits|
  {
    seq(|bits| / 8, k requires 0 <= k < |bits| / 8 => ByteOf(bits[8 * k..8 * k + 8]))
  }

  lemma ByteOfAt(bits: seq<bool>, j: nat)
    requires |bits| == 8 && j < 8
    ensures BitOf(ByteOf(bits), 7 - j) == bits[j]
  {
    hide BitOf, OrBit;
    NoBits(7 - j);
    var b := OrBit(0, bits[0], 7);
    OrBitAt(0, bits[0], 7, 7 - j);
    OrBitAt(b, bits[1], 6, 7 - j);
    b := OrBit(b, bits[1], 6);
    OrBitAt(b, bits[2], 5, 7 - j);
    b := OrBit(b, bits[2], 5);
    OrBitAt(b, bits[3], 4, 7 - j);
    b := OrBit(b, bits[3], 4);
    OrBitAt(b, bits[4], 3, 7 - j);
    b := OrBit(b, bits[4], 3);
    OrBitAt(b, bits[5], 2, 7 - j);
    b := OrBit(b, bits[5], 2);
    OrBitAt(b, bits[6], 1, 7 - j);
    b := OrBit(b, bits[6], 1);
    OrBitAt(b, bits[7], 0, 7 - j);
    assert j == 0 || j == 1 || j == 2 || j == 3 || j == 4 || j == 5 || j == 6 || j == 7;
  }

  /** Packing and unpacking are inverse. */
  lemma PackRoundTrip(bits: seq<bool>)
    requires |bits| % 8 == 0
    ensures CodewordBits(PackCodewords(bits)) == bits
  {
    hide BitOf, ByteOf;
    forall i | 0 <= i < |bits|
      ensures CodewordBits(PackCodewords(bits))[i] == bits[i]
    {
      var k, j := i / 8, i % 8;
      var eight := bits[8 * k..8 * k + 8];
      assert eight[j] == bits[8 * k + j] && 8 * k + j == i;
      ByteOfAt(eight, j);
    }
  }

  lemma UnpackRoundTrip(data: seq<bv8>)
    ensures PackCodewords(CodewordBits(data)) == data
  {
    hide PackCodewords, CodewordBits;
    PackRoundTrip(CodewordBits(data));
    CodewordsDetermined(PackCodewords(CodewordBits(data)), data);
  }

  /** Packs bits into bytes, in place. */
  method PackBits(bits: seq<bool>) returns (codewords: seq<bv8>)
    requires |bits| % 8 == 0
    ensures CodewordBits(codewords) == bits
  {
    hide BitOf, OrBit;
    var n := |bits| / 8;
    var dataCodewords := new bv8[n](_ => 0);
    forall j: nat | j < 8
      ensures !BitOf(0, j)
    {
      NoBits(j);
    }
    for i := 0 to |bits|
      invariant forall k, j :: 0 <= k < n && 0 <= j < 8 ==>
        BitOf(dataCodewords[k], j) == (8 * k + 7 - j < i && bits[8 * k + 7 - j])
    {
      ghost var before := dataCodewords[i / 8];
      dataCodewords[i / 8] := OrBit(dataCodewords[i / 8], bits[i], 7 - i % 8);
      forall j: nat | j < 8
        ensures BitOf(dataCodewords[i / 8], j) == if j == 7 - i % 8 then BitOf(before, j) || bits[i]
          else BitOf(before, j)
      {
        OrBitAt(before, bits[i], 7 - i % 8, j);
      }
    }
    codewords := dataCodewords[..];
    forall i | 0 <= i < |bits|
      ensures CodewordBits(codewords)[i] == bits[i]
    {
      assert 8 * (i / 8) + 7 - (7 - i % 8) == i;
    }
  }
}
