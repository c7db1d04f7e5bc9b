/** HTTP texts in characters: what the byte classes, the hexadecimal digits and the separators of the
    model are in the literals of RFC 7230 and RFC 5234. */
module HttpWire {
  import opened Spans
  import opened HttpText
  import opened HttpChunked
  import opened HttpHeaders

  predicate IsAscii(s: string) { forall i :: 0 <= i < |s| ==> s[i] < 128 as char }

  /** The bytes of an ASCII string. */
  function Octets(s: string): (t: Text)
    requires IsAscii(s)
    ensures |t| == |s|
  {
    seq(|s|, i requires 0 <= i < |s| => s[i] as int)
  }

  // ---------- Byte classes ----------

  const DELIMITERS := "(),/:;<=>?@[\\]{}\""

  /** RFC 7230 section 3.2.6: a token byte is any visible character but the delimiters. */
  lemma TokenIsNoDelimiter(c: Octet)
    ensures IsToken(c) <==> 0x20 < c < 0x7F && c as char !in DELIMITERS
  {}

  /** RFC 7230 section 3.2: a field value holds blanks, tabs, visible characters and bytes from 128 on. */
  lemma FieldBytes(c: Octet)
    ensures IsWhiteSpace(c) <==> c as char == ' ' || c as char == '\t'
    ensures IsFieldByte(c) <==> c as char == '\t' || (c >= 32 && c != 127)
  {}

  // ---------- Sizes ----------

  const LOWER_DIGITS := "0123456789abcdef"
  const UPPER_DIGITS := "0123456789ABCDEF"

  /** The character for a hexadecimal digit. */
  function HexChar(d: nat, upper: bool): Octet
    requires d < 16
  {
    if upper then UPPER_DIGITS[d] as int else LOWER_DIGITS[d] as int
  }

  lemma DigitIsReadBack(d: nat, upper: bool)
    requires d < 16
    ensures IsHex(HexChar(d, upper)) && HexDigit(HexChar(d, upper)) == d
  {
    assert d == 0 || d == 1 || d == 2 || d == 3 || d == 4 || d == 5 || d == 6 || d == 7 || d == 8 || d == 9
        || d == 10 || d == 11 || d == 12 || d == 13 || d == 14 || d == 15;
  }

  /** No other byte is a digit. */
  lemma OnlyTheseAreDigits(c: Octet)
    ensures IsHex(c) <==> c as char in LOWER_DIGITS || c as char in UPPER_DIGITS
  {}

  /** A number in hexadecimal, without leading zeros. */
  function HexText(n: nat, upper: bool): (t: Text)
    ensures t != []
  {
    if n < 16 then [HexChar(n, upper)] else HexText(n / 16, upper) + [HexChar(n % 16, upper)]
  }

  lemma {:induction false} HexIsReadBack(n: nat, upper: bool)
    ensures AllHex(HexText(n, upper)) && HexValue(HexText(n, upper)) == n
  {
    hide HexDigit, HexChar, IsHex;
    var t := HexText(n, upper);
    if n < 16 {
      DigitIsReadBack(n, upper);
      assert t[..0] == [];
    } else {
      HexIsReadBack(n / 16, upper);
      DigitIsReadBack(n % 16, upper);
      assert t[..|t| - 1] == HexText(n / 16, upper);
    }
  }

  // ---------- A body as a server prints it ----------

  function Sent(payloads: seq<Text>, upper: bool): Text {
    if payloads == [] then Octets("0\r\n")
    else
      var p := payloads[0];
      HexText(|p|, upper) + Octets("\r\n") + p + Octets("\r\n") + Sent(payloads[1..], upper)
  }

  function Joined(payloads: seq<Text>): Text {
    if payloads == [] then [] else payloads[0] + Joined(payloads[1..])
  }

  function ChunksOf(payloads: seq<Text>, upper: bool): (chunks: seq<Chunk>)
    ensures |chunks| == |payloads|
  {
    if payloads == [] then [] else [Chunk(HexText(|payloads[0]|, upper), payloads[0])] + ChunksOf(payloads[1..], upper)
  }

  predicate Sendable(payloads: seq<Text>) {
    forall p :: p in payloads ==> 0 < |p| < 0x1_0000_0000_0000_0000
  }

  lemma LineEndIs()
    ensures Octets("\r\n") == CRLF && Octets("0\r\n") == HexText(0, false) + CRLF
  {}

  lemma {:induction false} SentIsBody(payloads: seq<Text>, upper: bool)
    requires Sendable(payloads)
    ensures var chunks := ChunksOf(payloads, upper);
      && AreChunks(chunks) && BodyText(chunks, HexText(0, false)) == Sent(payloads, upper)
      && Payloads(chunks) == Joined(payloads)
  {
    hide HexText, Octets, HexValue;
    LineEndIs();
    if payloads != [] {
      var p, chunks := payloads[0], ChunksOf(payloads, upper);
      SentIsBody(payloads[1..], upper);
      HexIsReadBack(|p|, upper);
      assert chunks[1..] == ChunksOf(payloads[1..], upper);
    }
  }

  /** Any payloads under printed sizes decode to their concatenation, whatever follows the last line. */
  lemma SentIsDecoded(payloads: seq<Text>, upper: bool, rest: Text)
    requires Sendable(payloads)
    ensures DecodeSize(Sent(payloads, upper) + rest, []) == Complete(Joined(payloads))
  {
    hide DecodeSize, HexText, HexValue;
    SentIsBody(payloads, upper);
    HexIsReadBack(0, false);
    BodyDecodes(ChunksOf(payloads, upper), HexText(0, false), rest, []);
    assert [] + Joined(payloads) == Joined(payloads);
  }

  // ---------- Header lines ----------

  lemma FieldIsPrinted(f: Field)
    ensures FieldText(f) == f.name + Octets(": ") + f.value + Octets("\r\n")
  {}

  /** A value that goes on in the next line, behind a blank or a tab, is read as one value. */
  lemma FoldIsJoined(name: Text, v: Text, blank: Octet, w: Text, rest: Text)
    requires name != [] && AllToken(name) && AllField(v) && AllField(w) && v != []
    requires NoOuterWhiteSpace(v) && NoOuterWhiteSpace(w) && NoFoldAhead(rest)
    requires blank as char == ' ' || blank as char == '\t'
    ensures var line := name + Octets(":") + v + Octets("\r\n") + [blank] + w + Octets("\r\n");
      FieldOf(line + rest) == Success((|line|, Field(name, v + Octets(" ") + w)))
  {
    hide Octets, Content, AllToken, AllField, TrimRight, NoOuterWhiteSpace, Span, FieldOf, NoFoldAhead;
    Characters();
    var line := name + [0x3A] + v + CRLF + [blank] + w + CRLF;
    var value := v + (CRLF + ([blank] + w + CRLF + rest));
    assert line + rest == name + [0x3A] + value;
    NameReadBack(name, value);
    NoBlankAhead(v, CRLF + ([blank] + w + CRLF + rest));
    FoldedContent(v, blank, w, rest);
    FieldFrom(name, value, |v| + 3 + |w|, v + [0x20] + w) by {
      assert value[|v| + 3 + |w|] == CR && value[|v| + 4 + |w|] == LF;
    }
  }

  lemma FieldFrom(name: Text, value: Text, n: nat, content: Text)
    requires name != [] && Span(name + [0x3A] + value, IsToken) == |name| && Span(value, IsWhiteSpace) == 0
    requires Content(value) == (n, content) && CrlfAt(value, n)
    ensures FieldOf(name + [0x3A] + value) == Success((|name| + 1 + n + 2, Field(name, content)))
  {
    hide Span, Content, CrlfAt, FieldOf, IsToken, IsWhiteSpace;
    FieldParts(name, value, n);
    FieldIs(name + [0x3A] + value, |name|, value, n, content);
  }

  lemma FieldParts(name: Text, value: Text, n: nat)
    requires CrlfAt(value, n)
    ensures var t := name + [0x3A] + value;
      |name| < |t| && t[|name|] == 0x3A && t[..|name|] == name && t[|name| + 1..] == value
      && CrlfAt(t, |name| + 1 + n)
  {
    hide CrlfAt;
    CrlfBehind(name + [0x3A], value, n);
  }

  lemma FieldIs(t: Text, k: nat, value: Text, n: nat, content: Text)
    requires 0 < k < |t| && Span(t, IsToken) == k && t[k] == 0x3A && t[k + 1..] == value
    requires Span(value, IsWhiteSpace) == 0 && Content(value) == (n, content) && CrlfAt(t, k + 1 + n)
    ensures FieldOf(t) == Success((k + 1 + n + 2, Field(t[..k], content)))
  {
    hide Content, Span, CrlfAt, IsToken, IsWhiteSpace;
    assert t[k + 1 + Span(t[k + 1..], IsWhiteSpace)..] == value;
  }

  lemma CrlfBehind(before: Text, t: Text, n: nat)
    requires CrlfAt(t, n)
    ensures CrlfAt(before + t, |before| + n)
  {}

  lemma Characters()
    ensures Octets(":") == [0x3A] && Octets(" ") == [0x20] && Octets("\r\n") == CRLF
  {}

  lemma NoBlankAhead(v: Text, more: Text)
    requires v != [] && NoOuterWhiteSpace(v)
    ensures Span(v + more, IsWhiteSpace) == 0
  {
    assert (v + more)[0] == v[0];
    SpanIs(v + more, IsWhiteSpace, 0);
  }

  lemma FoldedContent(v: Text, blank: Octet, w: Text, rest: Text)
    requires AllField(v) && AllField(w) && v != [] && IsWhiteSpace(blank)
    requires NoOuterWhiteSpace(v) && NoOuterWhiteSpace(w) && NoFoldAhead(rest)
    ensures Content(v + (CRLF + ([blank] + w + CRLF + rest))) == (|v| + 3 + |w|, v + [0x20] + w)
  {
    hide TrimRight, Content, IsFieldByte, NoOuterWhiteSpace, NoFoldAhead, Span, AllField, IsFold;
    var more := w + CRLF + rest;
    var t := v + ([CR] + ([LF] + ([blank] + more)));
    FoldLayout(v, blank, w, rest);
    ValueEnds(v, [LF] + ([blank] + more));
    ValueReadBack(w, rest);
    NothingToTrim(v);
    NothingToTrim(w);
    ContentFolds(t, |v|);
  }

  lemma FoldLayout(v: Text, blank: Octet, w: Text, rest: Text)
    requires IsWhiteSpace(blank)
    ensures var more := w + CRLF + rest;
      var t := v + ([CR] + ([LF] + ([blank] + more)));
      && t == v + (CRLF + ([blank] + w + CRLF + rest))
      && t[..|v|] == v && t[|v| + 3..] == more && IsFold(t, |v|)
  {
    var more := w + CRLF + rest;
    assert [blank] + w + CRLF + rest == [blank] + more;
    assert CRLF + ([blank] + more) == [CR] + ([LF] + ([blank] + more));
  }

  lemma ValueEnds(v: Text, after: Text)
    requires AllField(v)
    ensures Span(v + ([CR] + after), IsFieldByte) == |v|
  {
    var t := v + ([CR] + after);
    forall k | 0 <= k < |v|
      ensures IsFieldByte(t[k])
    {
      assert t[k] == v[k] && v[k] in v;
    }
    assert t[|v|] == CR && !IsFieldByte(CR);
    SpanIs(t, IsFieldByte, |v|);
  }

  lemma ContentFolds(t: Text, n: nat)
    requires Span(t, IsFieldByte) == n <= |t| && IsFold(t, n)
    ensures Content(t) == (n + 3 + Content(t[n + 3..]).0, TrimRight(t[..n]) + [0x20] + Content(t[n + 3..]).1)
  {
    hide TrimRight, Span, CrlfAt, IsWhiteSpace;
  }

  lemma NothingToTrim(v: Text)
    requires NoOuterWhiteSpace(v)
    ensures TrimRight(v) == v
  {}
}
