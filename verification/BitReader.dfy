/** Reading numbers from a position of a bit string. */
module BitReader {
  import opened Bits

  /** A decoded prefix: a value and the bit position behind it. */
  datatype Parsed<T> = Malformed | Parsed(value: T, pos: nat)

  /** The next n bits as a number, least significant bit first. */
  function ReadLow(bits: seq<bool>, p: nat, n: nat): Parsed<nat> {
    if p + n <= |bits| then Parsed(LowValue(bits[p..p + n]), p + n) else Malformed
  }

  /** The next n bits as a number, most significant bit first. */
  function ReadHigh(bits: seq<bool>, p: nat, n: nat): Parsed<nat> {
    if p + n <= |bits| then Parsed(HighValue(bits[p..p + n]), p + n) else Malformed
  }

  /** `part` stands at bit p. */
  predicate StandsAt(bits: seq<bool>, p: nat, part: seq<bool>) {
    p + |part| <= |bits| && bits[p..p + |part|] == part
  }

  lemma StandsAtSplit(bits: seq<bool>, p: nat, a: seq<bool>, b: seq<bool>)
    ensures StandsAt(bits, p, a + b) <==> StandsAt(bits, p, a) && StandsAt(bits, p + |a|, b)
  {
    if p + |a| + |b| <= |bits| {
      var whole := bits[p..p + |a| + |b|];
      assert whole == bits[p..p + |a|] + bits[p + |a|..p + |a| + |b|];
      assert bits[p..p + |a|] == whole[..|a|] && bits[p + |a|..p + |a| + |b|] == whole[|a|..];
      assert (a + b)[..|a|] == a && (a + b)[|a|..] == b;
    }
  }

  lemma ReadLowAt(bits: seq<bool>, p: nat, n: nat, len: nat)
    requires n < Pow2(len) && StandsAt(bits, p, LowBits(n, len))
    ensures ReadLow(bits, p, len) == Parsed(n, p + len)
  {
    LowValueOfBits(n, len);
  }

  lemma ReadHighAt(bits: seq<bool>, p: nat, n: nat, len: nat)
    requires n < Pow2(len) && StandsAt(bits, p, HighBits(n, len))
    ensures ReadHigh(bits, p, len) == Parsed(n, p + len)
    ensures len > 0 ==> ReadHigh(bits, p, len - 1) == Parsed(n / 2, p + len - 1)
  {
    HighValueOfBits(n, len);
    if len > 0 {
      SliceInit(bits, p, p + len);
    }
  }
}
