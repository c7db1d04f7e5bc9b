/** The compressor's output: a growing byte buffer and a 32-bit accumulator that is flushed byte
    by byte. */
module BitOutput {
  import opened Bits
  import opened Inflate
  import opened DeflateFormat

  /** Bitwise or of two numbers. */
  function BitOr(a: nat, b: nat): nat {
    if a == 0 then b else (if a % 2 == 1 || b % 2 == 1 then 1 else 0) + 2 * BitOr(a / 2, b / 2)
  }

  /** `x << n` on 32 bits. */
  function ShiftLeft32(x: nat, n: nat): nat { x * Pow2(n) % 0x1_0000_0000 }

  /** Or-ing in bits above the used ones is addition. */
  lemma {:induction false} BitOrDisjoint(a: nat, b: nat, n: nat)
    requires a < Pow2(n)
    ensures BitOr(a, b * Pow2(n)) == a + Pow2(n) * b
  {
    if n == 0 {
      assert b * 1 == b;
    } else if a > 0 {
      var p := Pow2(n - 1);
      assert b * Pow2(n) == 2 * (b * p);
      HalfOf(b * p, false);
      BitOrDisjoint(a / 2, b, n - 1);
      assert Pow2(n) * b == 2 * (p * b);
    } else {
      assert Pow2(n) * b == b * Pow2(n);
    }
  }

  lemma {:induction false} Pow2Monotone(m: nat, n: nat)
    requires m <= n
    ensures Pow2(m) <= Pow2(n)
  {
    if m < n { Pow2Monotone(m, n - 1); }
  }

  lemma {:induction false} Pow2Add(m: nat, n: nat)
    ensures Pow2(m + n) == Pow2(m) * Pow2(n)
  {
    if m == 0 {
    } else {
      Pow2Add(m - 1, n);
      assert 2 * (Pow2(m - 1) * Pow2(n)) == (2 * Pow2(m - 1)) * Pow2(n);
    }
  }

  lemma ShiftFits(code: nat, codebits: nat, n: nat)
    requires code < Pow2(codebits) && codebits <= 13 && n < 8
    ensures ShiftLeft32(code, n) == code * Pow2(n)
    ensures Pow2(n) * code + Pow2(n) <= Pow2(n + codebits) <= 0x10_0000
  {
    hide Pow2;
    Pow2Monotone(n + codebits, 20);
    assert Pow2(20) == 0x10_0000 by { Pow2Twenty(); }
    Pow2Add(n, codebits);
    MulStep(Pow2(n), code, Pow2(codebits));
  }

  lemma Pow2Twenty()
    ensures Pow2(8) == 256 && Pow2(20) == 0x10_0000
  {
    assert Pow2(4) == 16 && Pow2(8) == 256 && Pow2(12) == 4096 && Pow2(16) == 65536;
  }

  lemma MulStep(p: nat, a: nat, b: nat)
    requires a < b
    ensures p * a + p <= p * b && a * p == p * a
  {
    var d := b - a - 1;
    Distribute(p, a + 1, d);
    Distribute(p, a, 1);
  }

  lemma Distribute(p: nat, a: nat, b: nat)
    ensures p * (a + b) == p * a + p * b && 0 <= p * b
  {}

  lemma ByteBitsAppend(bytes: seq<Byte>, b: Byte)
    ensures ByteBits(bytes + [b]) == ByteBits(bytes) + LowBits(b, 8)
  {
    assert (bytes + [b])[..|bytes|] == bytes;
  }

  /** Moving the low eight bits of the accumulator to the buffer keeps the bit stream. */
  lemma FlushKeepsBits(bitbuf: nat, bitcount: nat)
    requires bitcount >= 8 && bitbuf < Pow2(bitcount)
    ensures LowBits(bitbuf, bitcount) == LowBits(bitbuf % 256, 8) + LowBits(bitbuf / 256, bitcount - 8)
    ensures bitbuf / 256 < Pow2(bitcount - 8)
  {
    hide Pow2, LowBits;
    Pow2Twenty();
    LowBitsConcat(bitbuf % 256, bitbuf / 256, 8, bitcount - 8);
    Pow2Add(8, bitcount - 8);
  }

  lemma FlushStep(out: seq<Byte>, bitbuf: nat, bitcount: nat)
    requires |out| >= 2 && bitcount >= 8 && bitbuf < Pow2(bitcount)
    ensures ByteBits((out + [bitbuf % 256])[2..]) + LowBits(bitbuf / 256, bitcount - 8)
         == ByteBits(out[2..]) + LowBits(bitbuf, bitcount)
    ensures bitbuf / 256 < Pow2(bitcount - 8)
  {
    hide Pow2, LowBits, ByteBits;
    FlushKeepsBits(bitbuf, bitcount);
    ByteBitsAppend(out[2..], bitbuf % 256);
    assert (out + [bitbuf % 256])[2..] == out[2..] + [bitbuf % 256];
  }

  class BitWriter {
    var out: seq<Byte>
    var bitbuf: nat
    var bitcount: nat

    /** The bits behind the two header bytes, including those still in the accumulator. */
    ghost function Stream(): (s: seq<bool>)
      requires |out| >= 2
      reads this
    {
      ByteBits(out[2..]) + LowBits(bitbuf, bitcount)
    }

    ghost predicate Valid()
      reads this
    {
      |out| >= 2 && bitcount < 8 && bitbuf < Pow2(bitcount)
    }

    constructor ()
      ensures Valid() && Stream() == [] && out == [0x78, 0x5e]
    {
      out, bitbuf, bitcount := [0x78, 0x5e], 0, 0;
    }

    method Flush()
      requires |out| >= 2 && bitbuf < Pow2(bitcount)
      modifies this
      ensures Valid() && Stream() == old(Stream()) && out[..2] == old(out[..2])
    {
      hide Pow2, LowBits, ByteBits;
      while bitcount >= 8
        invariant |out| >= 2 && bitbuf < Pow2(bitcount)
        invariant Stream() == old(Stream()) && out[..2] == old(out[..2])
      {
        FlushStep(out, bitbuf, bitcount);
        out := out + [bitbuf % 256];
        bitbuf := bitbuf / 256;
        bitcount := bitcount - 8;
      }
    }

    method Add(code: nat, codebits: nat)
      requires Valid() && code < Pow2(codebits) && codebits <= 13
      modifies this
      ensures Valid() && Stream() == old(Stream()) + LowBits(code, codebits) && out[..2] == old(out[..2])
    {
      ShiftFits(code, codebits, bitcount);
      BitOrDisjoint(bitbuf, code, bitcount);
      LowBitsConcat(bitbuf, code, bitcount, codebits);
      bitbuf := BitOr(bitbuf, ShiftLeft32(code, bitcount));
      bitcount := bitcount + codebits;
      assert Stream() == old(Stream()) + LowBits(code, codebits);
      Flush();
    }

    method HuffA(code: nat, codebits: nat)
      requires Valid() && code < Pow2(codebits) && codebits <= 13
      modifies this
      ensures Valid() && Stream() == old(Stream()) + HighBits(code, codebits) && out[..2] == old(out[..2])
    {
      var reversed := BitRev(code, codebits);
      Add(reversed, codebits);
    }

    /** Writes one symbol of the fixed Huffman code. */
    method Huff(n: nat)
      requires Valid() && n < 288
      modifies this
      ensures Valid() && Stream() == old(Stream()) + SymbolBits(n) && out[..2] == old(out[..2])
    {
      hide HighBits, Pow2;
      SmallPowers();
      if n <= 143 {
        HuffA(0x30 + n, 8);
      } else if n <= 255 {
        HuffA(0x190 + n - 144, 9);
      } else if n <= 279 {
        HuffA(0 + n - 256, 7);
      } else {
        HuffA(0xC0 + n - 280, 8);
      }
    }

    /** Writes a literal byte. */
    method HuffB(n: Byte)
      requires Valid()
      modifies this
      ensures Valid() && Stream() == old(Stream()) + SymbolBits(n) && out[..2] == old(out[..2])
    {
      hide HighBits, Pow2;
      SmallPowers();
      if n <= 143 {
        HuffA(0x30 + n as nat, 8);
      } else {
        HuffA(0x190 + n as nat - 144, 9);
      }
    }

    /** Pads with zero bits to a byte boundary. */
    method Pad()
      requires Valid()
      modifies this
      ensures Valid() && out[..2] == old(out[..2])
      ensures bitcount == 0 && old(Stream()) <= Stream() && |Stream()| == Align(|old(Stream())|)
      ensures Stream() == ByteBits(out[2..])
      ensures forall k :: |old(Stream())| <= k < |Stream()| ==> !Stream()[k]
    {
      assert LowBits(0, 1) == [false] by { LowBitsZero(1); }
      hide ByteBits, LowBits;
      while bitcount != 0
        invariant Valid() && out[..2] == old(out[..2])
        invariant old(Stream()) <= Stream() && |Stream()| <= Align(|old(Stream())|)
        invariant forall k :: |old(Stream())| <= k < |Stream()| ==> !Stream()[k]
        decreases Align(|old(Stream())|) - |Stream()|
      {
        assert |Stream()| == 8 * |out[2..]| + bitcount;
        Add(0, 1);
      }
      assert |Stream()| == 8 * |out[2..]|;
    }
  }

  lemma RevStep(rest: nat, res: nat, k: nat, left: nat)
    requires left > 0 && res < Pow2(k) && rest < Pow2(left)
    ensures HighBits(rest, left) + LowBits(res, k) == HighBits(rest / 2, left - 1) + LowBits(2 * res + rest % 2, k + 1)
    ensures 2 * res + rest % 2 < Pow2(k + 1) && rest / 2 < Pow2(left - 1)
  {
    HalfOf(res, rest % 2 == 1);
    assert LowBits(2 * res + rest % 2, k + 1) == [rest % 2 == 1] + LowBits(res, k);
    HighBitsInit(rest, left);
    hide HighBits, LowBits;
  }

  /** Reverses the low `codebits` bits of a code. */
  method BitRev(code: nat, codebits: nat) returns (res: nat)
    requires code < Pow2(codebits)
    ensures res < Pow2(codebits) && LowBits(res, codebits) == HighBits(code, codebits)
  {
    hide Pow2, HighBits, LowBits;
    res := 0;
    var rest: nat := code;
    assert Pow2(0) == 1 && LowBits(0, 0) == [] by { EmptyBits(0); }
    for k := 0 to codebits
      invariant res < Pow2(k) && rest < Pow2(codebits - k)
      invariant HighBits(code, codebits) == HighBits(rest, codebits - k) + LowBits(res, k)
    {
      RevStep(rest, res, k, codebits - k);
      res := 2 * res + rest % 2;
      rest := rest / 2;
    }
    EmptyBits(rest);
  }

  lemma EmptyBits(n: nat)
    ensures Pow2(0) == 1 && LowBits(n, 0) == [] && HighBits(n, 0) == []
  {}
}
