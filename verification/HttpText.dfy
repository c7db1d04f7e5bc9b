/** Bytes and character classes of HTTP messages (RFC 7230 section 3.2.6, RFC 5234 appendix B.1). */
module HttpText {
  type Octet = n: nat | n < 256
  type Text = seq<Octet>

  const CR: Octet := 0x0D
  const LF: Octet := 0x0A
  const CRLF: Text := [CR, LF]

  predicate IsWhiteSpace(c: Octet) { c == 0x20 || c == 0x09 }

  predicate IsDigit(c: Octet) { 0x30 <= c <= 0x39 }

  predicate IsAlpha(c: Octet) { 0x61 <= c <= 0x7A || 0x41 <= c <= 0x5A }

  predicate IsToken(c: Octet) {
    c == 0x21 || c == 0x23 || c == 0x24 || c == 0x25 || c == 0x26 || c == 0x27 || c == 0x2A || c == 0x2B
    || c == 0x2D || c == 0x2E || c == 0x5E || c == 0x5F || c == 0x60 || c == 0x7C || c == 0x7E
    || IsDigit(c) || IsAlpha(c)
  }

  predicate IsVisible(c: Octet) { 0x21 <= c <= 0x7E }

  predicate IsObsoleteText(c: Octet) { 0x80 <= c }

  predicate IsFieldByte(c: Octet) { IsWhiteSpace(c) || IsVisible(c) || IsObsoleteText(c) }

  predicate AllToken(t: Text) { forall c :: c in t ==> IsToken(c) }

  predicate AllField(t: Text) { forall c :: c in t ==> IsFieldByte(c) }

  // ---------- Searching ----------

  predicate CrlfAt(t: Text, i: nat) {
    i + 2 <= |t| && t[i] == CR && t[i + 1] == LF
  }

  /** The place of the first CRLF, or the length when there is none. */
  function FindCrlf(t: Text): (i: nat)
    ensures i <= |t| && (i < |t| ==> CrlfAt(t, i)) && forall k :: 0 <= k < i ==> !CrlfAt(t, k)
  {
    if t == [] then 0
    else if CrlfAt(t, 0) then 0
    else
      var i := FindCrlf(t[1..]);
      assert forall k :: 1 <= k ==> CrlfAt(t, k) == CrlfAt(t[1..], k - 1);
      i + 1
  }

  /** The first CRLF stays first when more text arrives. */
  lemma FindIsStable(t: Text, more: Text)
    requires FindCrlf(t) < |t|
    ensures FindCrlf(t + more) == FindCrlf(t)
  {
    var i := FindCrlf(t);
    assert CrlfAt(t + more, i);
    forall k | 0 <= k < i
      ensures !CrlfAt(t + more, k)
    {
      assert !CrlfAt(t, k);
    }
  }

  lemma FindAfter(before: Text, rest: Text)
    requires CR !in before
    ensures FindCrlf(before + CRLF + rest) == |before|
  {
    var t := before + CRLF + rest;
    assert CrlfAt(t, |before|);
    forall k | 0 <= k < |before|
      ensures !CrlfAt(t, k)
    {
      assert t[k] == before[k];
    }
  }

  // ---------- Hexadecimal sizes ----------

  /** The largest size_t plus one. */
  const WORD: nat := 0x1_0000_0000_0000_0000

  predicate IsHex(c: Octet) { IsDigit(c) || 0x41 <= c <= 0x46 || 0x61 <= c <= 0x66 }

  function HexDigit(c: Octet): (d: nat)
    requires IsHex(c)
    ensures d < 16
  {
    if IsDigit(c) then c - 0x30 else if 0x41 <= c <= 0x46 then c - 0x41 + 10 else c - 0x61 + 10
  }

  predicate AllHex(t: Text) { forall i :: 0 <= i < |t| ==> IsHex(t[i]) }

  /** The number a string of hexadecimal digits stands for. */
  function HexValue(t: Text): nat
    requires AllHex(t)
  {
    if t == [] then 0 else 16 * HexValue(t[..|t| - 1]) + HexDigit(t[|t| - 1])
  }
}
