/** Chunked bodies as section 4.1 of RFC 7230 defines them, and exactly when the decoder conforms. */
module HttpGrammar {
  import opened Wrappers
  import opened HttpText
  import opened HttpChunked

  // ---------- Chunk extensions (section 4.1.1) ----------

  /** A character that stands for itself in a quoted string (section 3.2.6). */
  predicate IsQuotedText(c: Octet) { IsFieldByte(c) && c != 0x22 && c != 0x5C }

  /** What stands between the quotes: plain characters and quoted pairs. */
  predicate IsQuotedInside(t: Text) {
    if t == [] then true
    else if t[0] == 0x5C then |t| > 1 && IsFieldByte(t[1]) && IsQuotedInside(t[2..])
    else IsQuotedText(t[0]) && IsQuotedInside(t[1..])
  }

  predicate IsQuotedString(t: Text) {
    |t| >= 2 && t[0] == t[|t| - 1] == 0x22 && IsQuotedInside(t[1..|t| - 1])
  }

  predicate IsName(t: Text) { t != [] && AllToken(t) }

  datatype Extension = Extension(name: Text, value: Option<Text>)

  predicate IsExtension(e: Extension) {
    IsName(e.name) && (e.value.Some? ==> IsName(e.value.value) || IsQuotedString(e.value.value))
  }

  function ExtensionText(e: Extension): Text {
    [0x3B] + e.name + (if e.value.Some? then [0x3D] + e.value.value else [])
  }

  function ExtensionsText(es: seq<Extension>): Text {
    if es == [] then [] else ExtensionText(es[0]) + ExtensionsText(es[1..])
  }

  // ---------- Chunks ----------

  /** A size line: at least one digit, then any extensions. */
  datatype Head = Head(size: Text, extensions: seq<Extension>)

  predicate IsHead(h: Head) {
    h.size != [] && AllHex(h.size) && forall e :: e in h.extensions ==> IsExtension(e)
  }

  function HeadText(h: Head): Text { h.size + ExtensionsText(h.extensions) }

  datatype RfcChunk = RfcChunk(head: Head, payload: Text)

  predicate IsRfcChunk(c: RfcChunk) {
    IsHead(c.head) && c.payload != [] && HexValue(c.head.size) == |c.payload|
  }

  predicate AreRfcChunks(chunks: seq<RfcChunk>) { forall c :: c in chunks ==> IsRfcChunk(c) }

  predicate IsLastHead(h: Head) { IsHead(h) && HexValue(h.size) == 0 }

  function RfcText(chunks: seq<RfcChunk>, last: Head): Text {
    if chunks == [] then HeadText(last) + CRLF
    else HeadText(chunks[0].head) + CRLF + (chunks[0].payload + CRLF + RfcText(chunks[1..], last))
  }

  function RfcPayloads(chunks: seq<RfcChunk>): Text {
    if chunks == [] then [] else chunks[0].payload + RfcPayloads(chunks[1..])
  }

  /** No size line carries an extension. */
  predicate IsPlain(chunks: seq<RfcChunk>, last: Head) {
    last.extensions == [] && forall c :: c in chunks ==> c.head.extensions == []
  }

  // ---------- The trailer (section 4.1.2) ----------

  /** A header field on one line (section 3.2). */
  predicate IsFieldLine(line: Text) {
    exists n | 0 < n < |line| :: AllToken(line[..n]) && line[n] == 0x3A && AllField(line[n + 1..])
  }

  /** A folded line, which continues the field above it (section 3.2.4). */
  predicate IsFoldLine(line: Text) { line != [] && IsWhiteSpace(line[0]) && AllField(line) }

  /** Header fields with their folded lines; the first line may be folded if there is a field above it. */
  predicate IsTrailer(lines: seq<Text>, folds: bool) {
    lines == [] || ((IsFieldLine(lines[0]) || (folds && IsFoldLine(lines[0]))) && IsTrailer(lines[1..], true))
  }

  function LinesText(lines: seq<Text>): Text {
    if lines == [] then [] else lines[0] + CRLF + LinesText(lines[1..])
  }

  // ---------- The whole body ----------

  /** t begins with a chunked body whose content added to `body` is the result. */
  ghost predicate IsRfcBody(t: Text, body: Text, result: Text) {
    exists chunks, last, trailer, rest ::
      AreRfcChunks(chunks) && IsLastHead(last) && IsTrailer(trailer, false)
      && t == RfcText(chunks, last) + (LinesText(trailer) + CRLF + rest) && result == body + RfcPayloads(chunks)
  }

  /** The same without extensions. */
  ghost predicate IsPlainBody(t: Text, body: Text, result: Text) {
    exists chunks, last, trailer, rest ::
      AreRfcChunks(chunks) && IsLastHead(last) && IsPlain(chunks, last) && IsTrailer(trailer, false)
      && t == RfcText(chunks, last) + (LinesText(trailer) + CRLF + rest) && result == body + RfcPayloads(chunks)
  }

  // ---------- What the decoder makes of chunks ----------

  lemma {:induction false} QuotedHasNoCr(t: Text)
    requires IsQuotedInside(t)
    ensures CR !in t
  {
    if t == [] {
    } else if t[0] == 0x5C {
      QuotedHasNoCr(t[2..]);
      assert t == [t[0], t[1]] + t[2..];
    } else {
      QuotedHasNoCr(t[1..]);
      assert t == [t[0]] + t[1..];
    }
  }

  lemma ValueHasNoCr(v: Text)
    requires IsName(v) || IsQuotedString(v)
    ensures CR !in v
  {
    if IsQuotedString(v) {
      QuotedHasNoCr(v[1..|v| - 1]);
      assert v == [v[0]] + v[1..|v| - 1] + [v[|v| - 1]];
    }
  }

  lemma {:induction false} ExtensionsHaveNoCr(es: seq<Extension>)
    requires forall e :: e in es ==> IsExtension(e)
    ensures CR !in ExtensionsText(es)
  {
    if es != [] {
      var e := es[0];
      assert e in es;
      if e.value.Some? { ValueHasNoCr(e.value.value); }
      ExtensionsHaveNoCr(es[1..]);
    }
  }

  /** A chunk extension, which RFC 7230 section 4.1.1 tells a recipient to ignore, is always an error. */
  lemma ExtensionIsThrown(size: Text, extension: Text, rest: Text, body: Text)
    requires CR !in size + [0x3B] + extension
    ensures DecodeSize(size + [0x3B] + extension + CRLF + rest, body) == Invalid(InvalidHexDigit)
  {
    var line := size + [0x3B] + extension;
    FindAfter(line, rest);
    var t := line + CRLF + rest;
    assert t[..|line|] == line && !IsHex(line[|size|]);
  }

  /** A size line with an extension is thrown. */
  lemma HeadIsThrown(h: Head, rest: Text, body: Text)
    requires IsHead(h) && h.extensions != []
    ensures DecodeSize(HeadText(h) + CRLF + rest, body) == Invalid(InvalidHexDigit)
  {
    hide DecodeSize;
    HexHasNoCr(h.size);
    ExtensionsHaveNoCr(h.extensions);
    var text := ExtensionsText(h.extensions);
    assert text == [0x3B] + text[1..];
    assert HeadText(h) == h.size + [0x3B] + text[1..];
    ExtensionIsThrown(h.size, text[1..], rest, body);
  }

  lemma PlainHeadText(h: Head)
    requires h.extensions == []
    ensures HeadText(h) == h.size
  {
    assert h.size + [] == h.size;
  }

  /** A chunk without extension adds its payload. */
  lemma PlainChunkStep(c: RfcChunk, rest: Text, body: Text)
    requires IsRfcChunk(c) && c.head.extensions == [] && |c.payload| < WORD
    ensures DecodeSize(HeadText(c.head) + CRLF + (c.payload + CRLF + rest), body) == DecodeSize(rest, body + c.payload)
  {
    hide DecodeSize, HexValue;
    PlainHeadText(c.head);
    var chunk := Chunk(c.head.size, c.payload);
    ChunkStep(chunk, rest, body);
    assert ChunkText(chunk) + rest == HeadText(c.head) + CRLF + (c.payload + CRLF + rest);
  }

  lemma LastHeadStep(last: Head, rest: Text, body: Text)
    requires IsLastHead(last) && last.extensions == []
    ensures DecodeSize(HeadText(last) + CRLF + rest, body) == Complete(body)
  {
    PlainHeadText(last);
    hide DecodeSize, HexValue;
    BodyDecodes([], last.size, rest, body);
    assert BodyText([], last.size) + rest == HeadText(last) + CRLF + rest;
    assert body + Payloads([]) == body;
  }

  lemma RfcTextNext(chunks: seq<RfcChunk>, last: Head, rest: Text)
    requires chunks != []
    ensures RfcText(chunks, last) + rest
         == HeadText(chunks[0].head) + CRLF + (chunks[0].payload + CRLF + (RfcText(chunks[1..], last) + rest))
  {}

  /** Chunks with their last size line decode to their payloads when no size line carries an extension, and
      are thrown otherwise. */
  lemma {:induction false} ChunksDecode(chunks: seq<RfcChunk>, last: Head, rest: Text, body: Text)
    requires AreRfcChunks(chunks) && IsLastHead(last) && |RfcPayloads(chunks)| < WORD
    ensures DecodeSize(RfcText(chunks, last) + rest, body)
         == if IsPlain(chunks, last) then Complete(body + RfcPayloads(chunks)) else Invalid(InvalidHexDigit)
  {
    hide DecodeSize, HeadText, IsRfcChunk, HexValue;
    if chunks == [] {
      assert RfcText(chunks, last) + rest == HeadText(last) + CRLF + rest;
      assert body + [] == body;
      if last.extensions == [] { LastHeadStep(last, rest, body); } else { HeadIsThrown(last, rest, body); }
    } else {
      var c, more := chunks[0], chunks[1..];
      assert chunks == [c] + more && c in chunks;
      RfcTextNext(chunks, last, rest);
      var tail := RfcText(more, last) + rest;
      if c.head.extensions == [] {
        PlainChunkStep(c, tail, body);
        ChunksDecode(more, last, rest, body + c.payload);
        assert body + c.payload + RfcPayloads(more) == body + RfcPayloads(chunks);
      } else {
        assert IsHead(c.head) by { ChunkHead(c); }
        HeadIsThrown(c.head, c.payload + CRLF + tail, body);
      }
    }
  }

  lemma ChunkHead(c: RfcChunk)
    requires IsRfcChunk(c)
    ensures IsHead(c.head)
  {}

  // ---------- The scan ----------

  /** Every size line met has a digit and states a number that a size_t holds. */
  predicate SizesProper(t: Text)
    decreases |t|
  {
    var i := FindCrlf(t);
    if i == |t| || !AllHex(t[..i]) then true
    else
      var n, after := HexValue(t[..i]), t[i + 2..];
      i > 0 && n < WORD && (n == 0 || |after| < n + 2 || SizesProper(after[n..][2..]))
  }

  /** The text behind the size line that ends the body, if one does. */
  function Behind(t: Text): (r: Text)
    ensures |r| <= |t|
    decreases |t|
  {
    var i := FindCrlf(t);
    if i == |t| || SizeOf(t[..i]) == None then []
    else
      var n, after := SizeOf(t[..i]).value, t[i + 2..];
      if n == 0 then after else if |after| < n + 2 then [] else Behind(after[n..][2..])
  }

  /** A trailer and an empty line. */
  predicate Ends(t: Text, folds: bool)
    decreases |t|
  {
    var i := FindCrlf(t);
    i < |t| && (i == 0 || ((IsFieldLine(t[..i]) || (folds && IsFoldLine(t[..i]))) && Ends(t[i + 2..], true)))
  }

  // ---------- The trailer is what the scan accepts ----------

  lemma FieldHasNoCr(t: Text)
    requires AllField(t)
    ensures CR !in t
  {}

  lemma TrailerLineHasNoCr(line: Text)
    requires IsFieldLine(line) || IsFoldLine(line)
    ensures CR !in line && line != []
  {
    if IsFoldLine(line) {
      FieldHasNoCr(line);
    } else {
      var n :| 0 < n < |line| && AllToken(line[..n]) && line[n] == 0x3A && AllField(line[n + 1..]);
      FieldHasNoCr(line[n + 1..]);
      assert line == line[..n] + [line[n]] + line[n + 1..];
    }
  }

  lemma {:induction false} TrailerEnds(lines: seq<Text>, folds: bool, rest: Text)
    requires IsTrailer(lines, folds)
    ensures Ends(LinesText(lines) + CRLF + rest, folds)
  {
    hide IsFieldLine, IsFoldLine;
    var t := LinesText(lines) + CRLF + rest;
    if lines == [] {
      assert t == [] + CRLF + rest;
      FindAfter([], rest);
    } else {
      var line, more := lines[0], LinesText(lines[1..]) + CRLF + rest;
      TrailerLineHasNoCr(line);
      TrailerEnds(lines[1..], true, rest);
      FindAfter(line, more);
      assert t == line + CRLF + more;
      assert t[..|line|] == line && t[|line| + 2..] == more;
    }
  }

  ghost predicate HasTrailer(t: Text, folds: bool) {
    exists lines, rest :: IsTrailer(lines, folds) && t == LinesText(lines) + CRLF + rest
  }

  lemma {:induction false} EndsHasTrailer(t: Text, folds: bool)
    requires Ends(t, folds)
    ensures HasTrailer(t, folds)
    decreases |t|
  {
    hide IsFieldLine, IsFoldLine;
    var i := FindCrlf(t);
    LineSplit(t, i);
    if i == 0 {
      assert t == LinesText([]) + CRLF + t[2..] && IsTrailer([], folds);
    } else {
      var line := t[..i];
      EndsHasTrailer(t[i + 2..], true);
      var lines, rest :| IsTrailer(lines, true) && t[i + 2..] == LinesText(lines) + CRLF + rest;
      var all := [line] + lines;
      assert all[1..] == lines && IsTrailer(all, folds);
      assert LinesText(all) + CRLF + rest == line + CRLF + (LinesText(lines) + CRLF + rest);
    }
  }

  // ---------- Proper size lines ----------

  /** The line met first, and the text behind its payload. */
  lemma ProperStep(size: Text, after: Text)
    requires AllHex(size)
    ensures SizesProper(size + CRLF + after)
       <==> size != [] && HexValue(size) < WORD
            && (HexValue(size) == 0 || |after| < HexValue(size) + 2 || SizesProper(after[HexValue(size)..][2..]))
  {
    hide HexValue;
    var t := size + CRLF + after;
    HexHasNoCr(size);
    FindAfter(size, after);
    assert t[..|size|] == size && t[|size| + 2..] == after;
  }

  lemma BehindStep(size: Text, after: Text)
    requires AllHex(size)
    ensures var n := HexValue(size) % WORD;
      Behind(size + CRLF + after)
      == if n == 0 then after else if |after| < n + 2 then [] else Behind(after[n..][2..])
  {
    hide HexValue;
    var t := size + CRLF + after;
    HexHasNoCr(size);
    FindAfter(size, after);
    assert t[..|size|] == size && t[|size| + 2..] == after;
  }

  lemma PlainChunkProper(c: RfcChunk, tail: Text)
    requires IsRfcChunk(c) && c.head.extensions == [] && |c.payload| < WORD
    ensures var t := HeadText(c.head) + CRLF + (c.payload + CRLF + tail);
      (SizesProper(t) <==> SizesProper(tail)) && Behind(t) == Behind(tail)
  {
    hide HexValue, SizesProper, Behind;
    var after := c.payload + CRLF + tail;
    assert after[|c.payload|..][2..] == tail;
    PlainHeadText(c.head);
    ProperStep(c.head.size, after);
    BehindStep(c.head.size, after);
  }

  /** Chunks of the grammar have proper size lines, and the scan finds what stands behind them. */
  lemma {:induction false} ChunksProper(chunks: seq<RfcChunk>, last: Head, rest: Text)
    requires AreRfcChunks(chunks) && IsLastHead(last) && IsPlain(chunks, last) && |RfcPayloads(chunks)| < WORD
    ensures SizesProper(RfcText(chunks, last) + rest) && Behind(RfcText(chunks, last) + rest) == rest
  {
    hide HexValue, SizesProper, Behind, HeadText, IsRfcChunk;
    if chunks == [] {
      PlainHeadText(last);
      assert RfcText(chunks, last) + rest == last.size + CRLF + rest;
      ProperStep(last.size, rest);
      BehindStep(last.size, rest);
    } else {
      var c, more := chunks[0], chunks[1..];
      assert chunks == [c] + more && c in chunks;
      ChunksProper(more, last, rest);
      RfcTextNext(chunks, last, rest);
      PlainChunkProper(c, RfcText(more, last) + rest);
    }
  }

  /** Without extensions, with the text behind the last size line. */
  ghost predicate IsPlainChunks(t: Text, body: Text, result: Text) {
    exists chunks, last ::
      AreRfcChunks(chunks) && IsLastHead(last) && IsPlain(chunks, last)
      && t == RfcText(chunks, last) + Behind(t) && result == body + RfcPayloads(chunks)
  }

  lemma PlainLast(size: Text, rest: Text, body: Text)
    requires size != [] && AllHex(size) && HexValue(size) == 0
    ensures IsPlainChunks(size + CRLF + rest, body, body)
  {
    hide HexValue;
    var last := Head(size, []);
    PlainHeadText(last);
    BehindStep(size, rest);
    assert AreRfcChunks([]) && IsLastHead(last) && IsPlain([], last);
    assert RfcText([], last) + rest == size + CRLF + rest;
    assert body + RfcPayloads([]) == body;
  }

  lemma PlainFrom(size: Text, payload: Text, tail: Text, body: Text, result: Text)
    requires size != [] && AllHex(size) && payload != [] && HexValue(size) == |payload| < WORD
    requires IsPlainChunks(tail, body + payload, result)
    ensures IsPlainChunks(size + CRLF + (payload + CRLF + tail), body, result)
  {
    hide HexValue, Behind, IsLastHead, HeadText, SizesProper;
    var chunks, last :| AreRfcChunks(chunks) && IsLastHead(last) && IsPlain(chunks, last)
      && tail == RfcText(chunks, last) + Behind(tail) && result == body + payload + RfcPayloads(chunks);
    var c := RfcChunk(Head(size, []), payload);
    var all := [c] + chunks;
    var t := size + CRLF + (payload + CRLF + tail);
    PlainHeadText(c.head);
    PlainChunkProper(c, tail);
    assert all[1..] == chunks && AreRfcChunks(all) && IsPlain(all, last);
    RfcTextNext(all, last, Behind(tail));
    assert body + RfcPayloads(all) == result;
    hide RfcText, RfcPayloads, AreRfcChunks, IsPlain;
    assert t == RfcText(all, last) + Behind(t);
  }

  lemma ProperHere(t: Text, i: nat)
    requires SizesProper(t) && i == FindCrlf(t) < |t| && AllHex(t[..i])
    ensures i > 0 && HexValue(t[..i]) < WORD
    ensures HexValue(t[..i]) > 0 && HexValue(t[..i]) + 2 <= |t[i + 2..]| ==>
      SizesProper(t[i + 2..][HexValue(t[..i])..][2..])
  {
    hide HexValue, AllHex, FindCrlf;
  }

  /** What proper size lines say about the first one of a text that decodes completely. */
  lemma ProperLine(t: Text, body: Text, result: Text)
    requires DecodeSize(t, body) == Complete(result) && SizesProper(t)
    ensures var i := FindCrlf(t);
      i < |t| && i > 0 && AllHex(t[..i]) && SizeOf(t[..i]) == Some(HexValue(t[..i]))
      && (HexValue(t[..i]) > 0 && HexValue(t[..i]) + 2 <= |t[i + 2..]| ==>
        SizesProper(t[i + 2..][HexValue(t[..i])..][2..]))
  {
    hide HexValue, AllHex, DecodeSize, SizesProper, FindCrlf;
    CompleteStep(t, body, result);
    ProperHere(t, FindCrlf(t));
  }

  /** A text that decodes completely by proper size lines consists of chunks of the grammar. */
  lemma {:induction false} ProperIsPlain(t: Text, body: Text, result: Text)
    requires DecodeSize(t, body) == Complete(result) && SizesProper(t)
    ensures IsPlainChunks(t, body, result)
    decreases |t|
  {
    hide DecodeSize, HexValue, IsPlainChunks, SizesProper, FindCrlf, SizeOf;
    CompleteStep(t, body, result);
    ProperLine(t, body, result);
    var i := FindCrlf(t);
    var size, after := t[..i], t[i + 2..];
    LineSplit(t, i);
    var n := HexValue(size);
    if n == 0 {
      PlainLast(size, after, body);
    } else {
      var payload, tail := after[..n], after[n..][2..];
      assert n < WORD by { ProperHere(t, i); }
      ProperIsPlain(tail, body + payload, result);
      PayloadSplit(after, n);
      PlainFrom(size, payload, tail, body, result);
    }
  }

  // ---------- Bodies cut short ----------

  lemma FindInPart(t: Text, k: nat)
    requires k <= |t|
    ensures FindCrlf(t[..k]) == if FindCrlf(t) + 2 <= k then FindCrlf(t) else k
  {
    var i, u := FindCrlf(t), t[..k];
    assert forall j :: 0 <= j <= k - 2 ==> (CrlfAt(u, j) <==> CrlfAt(t, j));
  }

  lemma TakeDrop(t: Text, a: nat, k: nat)
    requires a <= k <= |t|
    ensures t[..k][..a] == t[..a] && t[..k][a..] == t[a..][..k - a]
  {}

  /** The part that ends inside the first size line, its payload or the line end behind it. */
  lemma CutInFirst(t: Text, k: nat, body: Text)
    requires k <= |t| && FindCrlf(t) < |t| && SizeOf(t[..FindCrlf(t)]).Some?
    ensures var i := FindCrlf(t);
      var n := SizeOf(t[..i]).value;
      if k < i + 2 then DecodeSize(t[..k], body) == Partial(body)
      else if n == 0 then DecodeSize(t[..k], body) == Complete(body)
      else k < i + 2 + n + 2 ==> DecodeSize(t[..k], body).Partial?
  {
    hide SizeOf;
    var i := FindCrlf(t);
    FindInPart(t, k);
    if k >= i + 2 {
      var n, u := SizeOf(t[..i]).value, t[..k][i + 2..];
      TakeDrop(t, i, k);
      if 0 < n <= |u| < n + 2 {
        assert DecodeData(u, body, n) == DecodeEnd(u[n..], body + u[..n]);
      }
    }
  }

  lemma CutPayload(after: Text, n: nat, m: nat)
    requires n + 2 <= m <= |after|
    ensures after[..m][..n] == after[..n] && after[..m][n..][..2] == after[n..][..2]
    ensures after[..m][n..][2..] == after[n..][2..][..m - n - 2]
  {
    TakeDrop(after, n, m);
    TakeDrop(after[n..], 2, m - n);
  }

  lemma DataStep(u: Text, body: Text, n: nat)
    requires n + 2 <= |u| && u[n..][..2] == CRLF
    ensures DecodeData(u, body, n) == DecodeSize(u[n..][2..], body + u[..n])
  {
    hide DecodeSize;
  }

  /** The part that goes on behind the first payload. */
  lemma CutBehindFirst(t: Text, k: nat, body: Text)
    requires FindCrlf(t) < |t| && SizeOf(t[..FindCrlf(t)]).Some? && SizeOf(t[..FindCrlf(t)]).value > 0
    requires var i := FindCrlf(t); var n := SizeOf(t[..i]).value;
      i + 2 + n + 2 <= k <= |t| && t[i + 2..][n..][..2] == CRLF
    ensures var i := FindCrlf(t); var n := SizeOf(t[..i]).value; var after := t[i + 2..];
      DecodeSize(t[..k], body) == DecodeSize(after[n..][2..][..k - i - 2 - n - 2], body + after[..n])
  {
    hide SizeOf, FindCrlf, DecodeData;
    var i := FindCrlf(t);
    var n, after := SizeOf(t[..i]).value, t[i + 2..];
    FindInPart(t, k);
    TakeDrop(t, i, k);
    TakeDrop(t, i + 2, k);
    assert DecodeSize(t[..k], body) == DecodeData(t[..k][i + 2..], body, n);
    hide DecodeSize;
    CutPayload(after, n, k - i - 2);
    DataStep(after[..k - i - 2], body, n);
  }

  /** A part of a text that decodes completely is taken for a whole body, and handed over cut short, exactly
      when it ends before the size line that ends the body does. */
  lemma {:induction false} PartialIffCut(t: Text, k: nat, body: Text, result: Text)
    requires k <= |t| && DecodeSize(t, body) == Complete(result)
    ensures DecodeSize(t[..k], body).Partial? <==> k + |Behind(t)| < |t|
    decreases |t|
  {
    CompleteStep(t, body, result);
    var i := FindCrlf(t);
    var n, after := SizeOf(t[..i]).value, t[i + 2..];
    CutInFirst(t, k, body);
    hide DecodeSize, SizeOf, FindCrlf;
    if k >= i + 2 + n + 2 && n > 0 {
      CutBehindFirst(t, k, body);
      PartialIffCut(after[n..][2..], k - i - 2 - n - 2, body + after[..n], result);
    }
  }

  // ---------- When the decoder conforms ----------

  /** A text is a body of RFC 7230 without extensions, with a result that fits a vector, exactly when it
      decodes to that result by proper size lines with a trailer and an empty line behind the last one. */
  lemma PlainIffEnds(t: Text, body: Text, result: Text)
    requires |result| < WORD
    ensures IsPlainBody(t, body, result)
       <==> DecodeSize(t, body) == Complete(result) && SizesProper(t) && Ends(Behind(t), false)
  {
    hide DecodeSize, SizesProper, Behind, Ends, IsTrailer, LinesText, IsLastHead, IsPlain, AreRfcChunks;
    if IsPlainBody(t, body, result) {
      var chunks, last, trailer, rest :|
        AreRfcChunks(chunks) && IsLastHead(last) && IsPlain(chunks, last) && IsTrailer(trailer, false)
        && t == RfcText(chunks, last) + (LinesText(trailer) + CRLF + rest) && result == body + RfcPayloads(chunks);
      ChunksDecode(chunks, last, LinesText(trailer) + CRLF + rest, body);
      ChunksProper(chunks, last, LinesText(trailer) + CRLF + rest);
      TrailerEnds(trailer, false, rest);
    }
    if DecodeSize(t, body) == Complete(result) && SizesProper(t) && Ends(Behind(t), false) {
      ProperIsPlain(t, body, result);
      EndsHasTrailer(Behind(t), false);
      var chunks, last :| AreRfcChunks(chunks) && IsLastHead(last) && IsPlain(chunks, last)
        && t == RfcText(chunks, last) + Behind(t) && result == body + RfcPayloads(chunks);
      var trailer, rest :| IsTrailer(trailer, false) && Behind(t) == LinesText(trailer) + CRLF + rest;
      assert t == RfcText(chunks, last) + (LinesText(trailer) + CRLF + rest);
    }
  }

  /** A body of RFC 7230 decodes to its content when it has no extension, and is thrown otherwise. */
  lemma RfcBodyDecodes(t: Text, body: Text, result: Text)
    requires IsRfcBody(t, body, result) && |result| < WORD
    ensures DecodeSize(t, body) == if IsPlainBody(t, body, result) then Complete(result) else Invalid(InvalidHexDigit)
  {
    hide DecodeSize, SizesProper, Behind, Ends, IsTrailer, LinesText, IsLastHead, IsPlain, AreRfcChunks;
    var chunks, last, trailer, rest :|
      AreRfcChunks(chunks) && IsLastHead(last) && IsTrailer(trailer, false)
      && t == RfcText(chunks, last) + (LinesText(trailer) + CRLF + rest) && result == body + RfcPayloads(chunks);
    ChunksDecode(chunks, last, LinesText(trailer) + CRLF + rest, body);
    if !IsPlain(chunks, last) {
      PlainIffEnds(t, body, result);
    }
  }

  /** What the decoder completes is a body of RFC 7230 with that content exactly when every size line is
      proper and the text behind the last one begins with a trailer and an empty line. */
  lemma CompleteIsRfcBody(t: Text, body: Text, result: Text)
    requires DecodeSize(t, body) == Complete(result) && |result| < WORD
    ensures IsRfcBody(t, body, result) <==> SizesProper(t) && Ends(Behind(t), false)
  {
    hide DecodeSize, SizesProper, Behind, Ends, IsRfcBody, IsPlainBody;
    PlainIffEnds(t, body, result);
    if IsRfcBody(t, body, result) {
      RfcBodyDecodes(t, body, result);
    }
    if IsPlainBody(t, body, result) {
      PlainIsRfc(t, body, result);
    }
  }

  lemma PlainIsRfc(t: Text, body: Text, result: Text)
    requires IsPlainBody(t, body, result)
    ensures IsRfcBody(t, body, result)
  {
    hide IsTrailer, LinesText, IsLastHead, IsPlain, AreRfcChunks, RfcText, RfcPayloads;
  }

  // ---------- Where the decoder leaves the grammar ----------

  /** An empty size line ends the body. */
  lemma EmptySizeEndsBody(rest: Text, body: Text)
    ensures DecodeSize(CRLF + rest, body) == Complete(body) && !SizesProper(CRLF + rest)
  {
    assert [] + CRLF + rest == CRLF + rest;
    FindAfter([], rest);
  }

  function Zeros(n: nat): Text { seq(n, _ => 0x30) }

  function Pow16(n: nat): nat { if n == 0 then 1 else 16 * Pow16(n - 1) }

  lemma {:induction false} HexZeros(n: nat)
    ensures AllHex([0x31] + Zeros(n)) && HexValue([0x31] + Zeros(n)) == Pow16(n)
  {
    var t := [0x31] + Zeros(n);
    if n == 0 {
      assert t == [0x31] && t[..0] == [];
    } else {
      HexZeros(n - 1);
      assert t[..n] == [0x31] + Zeros(n - 1);
    }
  }

  lemma WordIsPower()
    ensures Pow16(16) == WORD
  {
    assert Pow16(4) == 0x1_0000;
    assert Pow16(8) == 0x1_0000_0000;
    assert Pow16(12) == 0x1_0000_0000_0000;
  }

  /** The size 2^64, a one and sixteen zeros, wraps around to zero and ends the body. */
  lemma WrappedSizeEndsBody(rest: Text, body: Text)
    ensures var t := [0x31] + Zeros(16) + CRLF + rest;
      DecodeSize(t, body) == Complete(body) && !SizesProper(t)
  {
    var size := [0x31] + Zeros(16);
    HexZeros(16);
    WordIsPower();
    hide HexValue, SizesProper, Pow16;
    ProperStep(size, rest);
    HexHasNoCr(size);
    FindAfter(size, rest);
    var t := size + CRLF + rest;
    assert t[..|size|] == size;
    assert HexValue(size) % WORD == 0;
    LastStep(t, body);
  }

  /** The line for size zero ends the body whatever stands behind it: a text that goes on with neither a
      trailer nor an empty line decodes and is no body. */
  lemma MissingEnd(rest: Text, body: Text)
    requires |body| < WORD && !Ends(rest, false)
    ensures var t := [0x30] + CRLF + rest;
      DecodeSize(t, body) == Complete(body) && SizesProper(t) && !IsRfcBody(t, body, body)
  {
    var last := Head([0x30], []);
    var t := [0x30] + CRLF + rest;
    assert HexValue([0x30]) == 0;
    PlainHeadText(last);
    LastHeadStep(last, rest, body);
    hide HexValue, SizesProper, DecodeSize, Ends, IsRfcBody;
    ProperStep([0x30], rest);
    BehindStep([0x30], rest);
    CompleteIsRfcBody(t, body, body);
  }

  /** Size zero with nothing behind it, and with a letter. */
  lemma ZeroWithoutEnd()
    ensures var t := [0x30] + CRLF;
      DecodeSize(t, []) == DecodeSize(t + [0x58], []) == Complete([])
      && !IsRfcBody(t, [], []) && !IsRfcBody(t + [0x58], [], [])
  {
    assert !Ends([], false) && !Ends([0x58], false);
    hide DecodeSize, IsRfcBody, Ends;
    MissingEnd([], []);
    MissingEnd([0x58], []);
    assert [0x30] + CRLF + [] == [0x30] + CRLF;
  }

  lemma ExtensionChunkText(c: RfcChunk, last: Head)
    requires c == RfcChunk(Head([0x31], [Extension([0x78], None)]), [0x61]) && last == Head([0x30], [])
    ensures IsRfcChunk(c) && IsLastHead(last)
    ensures RfcText([c], last) + CRLF == [0x31, 0x3B, 0x78] + CRLF + [0x61] + CRLF + [0x30] + CRLF + CRLF
  {
    assert HexValue([0x31]) == 1 && HexValue([0x30]) == 0;
    assert ExtensionsText([Extension([0x78], None)]) == [0x3B, 0x78];
    assert HeadText(c.head) == [0x31, 0x3B, 0x78];
    PlainHeadText(last);
    assert RfcText([], last) == [0x30] + CRLF;
    hide HexValue, ExtensionsText, HeadText;
    RfcTextNext([c], last, CRLF);
  }

  /** The letter a in a chunk with the extension x is a body that is thrown. */
  lemma ExtensionBodyIsThrown()
    ensures var t := [0x31, 0x3B, 0x78] + CRLF + [0x61] + CRLF + [0x30] + CRLF + CRLF;
      IsRfcBody(t, [], [0x61]) && DecodeSize(t, []) == Invalid(InvalidHexDigit)
  {
    var c, last := RfcChunk(Head([0x31], [Extension([0x78], None)]), [0x61]), Head([0x30], []);
    assert RfcPayloads([c]) == [0x61];
    assert !IsPlain([c], last);
    assert LinesText([]) + CRLF + [] == CRLF && IsTrailer([], false);
    hide DecodeSize, IsRfcChunk, IsLastHead, RfcText, RfcPayloads, LinesText, IsTrailer, IsPlain;
    ExtensionChunkText(c, last);
    assert [] + RfcPayloads([c]) == [0x61];
    ChunksDecode([c], last, CRLF, []);
  }
}
