/** Chunked bodies (RFC 7230 section 4.1): the state machine fed by arbitrary reads, the one-pass
    reading of the whole text it agrees with, and the texts that reading accepts. */
module HttpChunked {
  import opened Wrappers
  import opened HttpText

  // ---------- The one-pass reading ----------

  datatype Error = InvalidHexDigit | InvalidChunk

  /** What a chunked text amounts to: a complete body, the body so far, or an error. */
  datatype Outcome = Complete(body: Text) | Partial(body: Text) | Invalid(error: Error)

  function SizeOf(line: Text): Option<nat> {
    if AllHex(line) then Some(HexValue(line) % WORD) else None
  }

  /** The text from a size line on. */
  function DecodeSize(t: Text, body: Text): Outcome
    decreases |t|, 0
  {
    var i := FindCrlf(t);
    if i == |t| then Partial(body)
    else
      var size := SizeOf(t[..i]);
      if size == None then Invalid(InvalidHexDigit)
      else if size.value == 0 then Complete(body)
      else DecodeData(t[i + 2..], body, size.value)
  }

  /** The text from n bytes of payload on. */
  function DecodeData(t: Text, body: Text, n: nat): Outcome
    decreases |t|, 2
  {
    if |t| < n then Partial(body + t) else DecodeEnd(t[n..], body + t[..n])
  }

  /** The text from the line end behind a payload on. */
  function DecodeEnd(t: Text, body: Text): Outcome
    decreases |t|, 1
  {
    if |t| < 2 then Partial(body)
    else if t[..2] != CRLF then Invalid(InvalidChunk)
    else DecodeSize(t[2..], body)
  }

  /** The text from wherever the state machine stands. */
  function Continue(t: Text, body: Text, expected: nat, removeCrlf: bool): Outcome {
    if expected > 0 then DecodeData(t, body, expected)
    else if removeCrlf then DecodeEnd(t, body)
    else DecodeSize(t, body)
  }

  /** The state machine has to wait for more text. */
  predicate Stuck(t: Text, expected: nat, removeCrlf: bool) {
    if expected > 0 then t == []
    else if removeCrlf then |t| < 2
    else FindCrlf(t) == |t|
  }

  lemma StuckIsPartial(t: Text, body: Text, expected: nat, removeCrlf: bool)
    requires Stuck(t, expected, removeCrlf)
    ensures Continue(t + [], body, expected, removeCrlf) == Partial(body)
  {
    assert t + [] == t;
    assert body + [] == body;
  }

  // ---------- More text behind ----------

  lemma DataShort(t: Text, body: Text, n: nat)
    requires |t| < n
    ensures forall more: Text :: DecodeData(t + more, body, n) == DecodeData([] + more, body + t, n - |t|)
  {
    forall more: Text
      ensures DecodeData(t + more, body, n) == DecodeData([] + more, body + t, n - |t|)
    {
      assert [] + more == more;
      if |t + more| < n {
        assert body + (t + more) == body + t + more;
      } else {
        assert (t + more)[n..] == more[n - |t|..];
        assert body + (t + more)[..n] == body + t + more[..n - |t|];
      }
    }
  }

  lemma DataWhole(t: Text, body: Text, n: nat)
    requires n <= |t|
    ensures forall more: Text :: DecodeData(t + more, body, n) == DecodeEnd(t[n..] + more, body + t[..n])
  {
    forall more: Text
      ensures DecodeData(t + more, body, n) == DecodeEnd(t[n..] + more, body + t[..n])
    {
      assert (t + more)[n..] == t[n..] + more && (t + more)[..n] == t[..n];
    }
  }

  lemma LineEnd(t: Text, body: Text)
    requires |t| >= 2
    ensures forall more: Text :: DecodeEnd(t + more, body)
                              == if t[..2] == CRLF then DecodeSize(t[2..] + more, body) else Invalid(InvalidChunk)
  {
    forall more: Text
      ensures DecodeEnd(t + more, body) == if t[..2] == CRLF then DecodeSize(t[2..] + more, body)
        else Invalid(InvalidChunk)
    {
      assert (t + more)[2..] == t[2..] + more && (t + more)[..2] == t[..2];
    }
  }

  lemma SizeLineBefore(t: Text, body: Text, more: Text)
    requires FindCrlf(t) < |t|
    ensures var size := SizeOf(t[..FindCrlf(t)]);
      DecodeSize(t + more, body) == if size == None then Invalid(InvalidHexDigit)
                                    else if size.value == 0 then Complete(body)
                                    else DecodeData(t[FindCrlf(t) + 2..] + more, body, size.value)
  {
    hide SizeOf, FindCrlf, DecodeData;
    var i := FindCrlf(t);
    FindIsStable(t, more);
    assert (t + more)[i + 2..] == t[i + 2..] + more && (t + more)[..i] == t[..i];
  }

  lemma SizeLine(t: Text, body: Text)
    requires FindCrlf(t) < |t|
    ensures var size := SizeOf(t[..FindCrlf(t)]);
      forall more: Text :: DecodeSize(t + more, body)
                        == if size == None then Invalid(InvalidHexDigit)
                           else if size.value == 0 then Complete(body)
                           else DecodeData(t[FindCrlf(t) + 2..] + more, body, size.value)
  {
    hide SizeOf, FindCrlf, DecodeSize, DecodeData;
    var size := SizeOf(t[..FindCrlf(t)]);
    forall more: Text
      ensures DecodeSize(t + more, body) == if size == None then Invalid(InvalidHexDigit)
                                            else if size.value == 0 then Complete(body)
                                            else DecodeData(t[FindCrlf(t) + 2..] + more, body, size.value)
    {
      SizeLineBefore(t, body, more);
    }
  }

  /** Having used `received` up to t, the state comes out as one pass does, whatever follows. */
  ghost predicate Stands(received: Text, t: Text, body: Text, expected: nat, removeCrlf: bool) {
    forall more: Text :: DecodeSize(received + more, []) == Continue(t + more, body, expected, removeCrlf)
  }

  /** The outcome no longer depends on what follows. */
  ghost predicate Settled(received: Text, outcome: Outcome) {
    forall more: Text :: DecodeSize(received + more, []) == outcome
  }

  lemma StandsAtStart()
    ensures Stands([], [], [], 0, false)
  {}

  lemma StandsWithMore(received: Text, t: Text, body: Text, expected: nat, removeCrlf: bool, data: Text)
    requires Stands(received, t, body, expected, removeCrlf)
    ensures Stands(received + data, t + data, body, expected, removeCrlf)
  {
    forall more: Text
      ensures DecodeSize(received + data + more, []) == Continue(t + data + more, body, expected, removeCrlf)
    {
      assert received + data + more == received + (data + more) && t + data + more == t + (data + more);
    }
  }

  lemma PayloadStep(received: Text, t: Text, body: Text, expected: nat, removeCrlf: bool, w: nat)
    requires Stands(received, t, body, expected, removeCrlf)
    requires expected > 0 && (w == expected <= |t| || w == |t| < expected)
    ensures Stands(received, t[w..], body + t[..w], expected - w, removeCrlf || w == expected)
  {
    if w == expected {
      DataWhole(t, body, expected);
    } else {
      DataShort(t, body, expected);
      assert t[..w] == t && t[w..] == [];
    }
    hide DecodeSize, DecodeData, DecodeEnd;
  }

  lemma LineEndStep(received: Text, t: Text, body: Text)
    requires Stands(received, t, body, 0, true) && |t| >= 2
    ensures if t[..2] == CRLF then Stands(received, t[2..], body, 0, false)
      else Settled(received, Invalid(InvalidChunk))
  {
    LineEnd(t, body);
    hide DecodeSize, DecodeData, DecodeEnd;
  }

  lemma SizeStep(received: Text, t: Text, body: Text)
    requires Stands(received, t, body, 0, false) && FindCrlf(t) < |t|
    ensures var i := FindCrlf(t);
      var size := SizeOf(t[..i]);
      if size == None then Settled(received, Invalid(InvalidHexDigit))
      else if size.value == 0 then Settled(received, Complete(body))
      else Stands(received, t[i + 2..], body, size.value, false)
  {
    SizeLine(t, body);
    hide DecodeSize, DecodeData, DecodeEnd, SizeOf;
  }

  lemma StuckStep(received: Text, t: Text, body: Text, expected: nat, removeCrlf: bool)
    requires Stands(received, t, body, expected, removeCrlf) && Stuck(t, expected, removeCrlf)
    ensures DecodeSize(received, []) == Partial(body)
  {
    StuckIsPartial(t, body, expected, removeCrlf);
    hide DecodeSize, Continue;
    assert received + [] == received;
  }

  // ---------- The state machine ----------

  method HexStringToUint(line: Text) returns (size: Option<nat>)
    ensures size == SizeOf(line)
  {
    var result := 0;
    for i := 0 to |line|
      invariant AllHex(line[..i]) && result == HexValue(line[..i]) % WORD
    {
      if !IsHex(line[i]) { return None; }
      assert line[..i + 1][..i] == line[..i];
      WrapNext(HexValue(line[..i]), HexDigit(line[i]));
      result := (16 * result + HexDigit(line[i])) % WORD;
    }
    assert line[..|line|] == line;
    size := Some(result);
  }

  lemma WrapNext(v: nat, d: nat)
    ensures (16 * (v % WORD) + d) % WORD == (16 * v + d) % WORD
  {
    var q := v / WORD;
    assert v == q * WORD + v % WORD;
    assert 16 * v + d == 16 * (v % WORD) + d + (16 * q) * WORD;
    WrapWhole(16 * (v % WORD) + d, 16 * q);
  }

  lemma {:induction false} WrapWhole(x: nat, k: nat)
    ensures (x + k * WORD) % WORD == x % WORD
  {
    if k > 0 {
      WrapWhole(x, k - 1);
      assert x + k * WORD == x + (k - 1) * WORD + WORD;
    }
  }

  /** What the caller does after a read: read on, return the response, or throw. */
  datatype Verdict = ReadOn | Return | Throw(error: Error)

  class ChunkDecoder {
    var responseData: Text
    var body: Text
    var expectedChunkSize: nat
    var removeCrlfAfterChunk: bool
    /** All bytes of the body text so far. */
    ghost var received: Text

    ghost predicate Valid()
      reads this
    {
      Stands(received, responseData, body, expectedChunkSize, removeCrlfAfterChunk)
    }

    constructor ()
      ensures Valid() && received == []
    {
      responseData, body, expectedChunkSize, removeCrlfAfterChunk, received := [], [], 0, false, [];
      new;
      StandsAtStart();
    }

    /** Takes in the bytes of one read. */
    method Receive(data: Text) returns (verdict: Verdict)
      requires Valid()
      modifies this
      ensures received == old(received) + data
      ensures verdict.ReadOn? ==> Valid() && DecodeSize(received, []) == Partial(body)
      ensures verdict.Return? ==> Settled(received, Complete(body))
      ensures verdict.Throw? ==> Settled(received, Invalid(verdict.error))
    {
      hide DecodeSize, Stands, Settled, SizeOf;
      StandsWithMore(received, responseData, body, expectedChunkSize, removeCrlfAfterChunk, data);
      responseData := responseData + data;
      received := received + data;
      while true
        invariant Valid() && received == old(received) + data
        decreases |responseData|
      {
        if expectedChunkSize > 0 {
          var toWrite := if expectedChunkSize < |responseData| then expectedChunkSize else |responseData|;
          PayloadStep(received, responseData, body, expectedChunkSize, removeCrlfAfterChunk, toWrite);
          body := body + responseData[..toWrite];
          responseData := responseData[toWrite..];
          expectedChunkSize := expectedChunkSize - toWrite;
          if expectedChunkSize == 0 { removeCrlfAfterChunk := true; }
          if responseData == [] {
            StuckStep(received, responseData, body, expectedChunkSize, removeCrlfAfterChunk);
            return ReadOn;
          }
        } else {
          if removeCrlfAfterChunk {
            if |responseData| < 2 {
              StuckStep(received, responseData, body, expectedChunkSize, removeCrlfAfterChunk);
              return ReadOn;
            }
            LineEndStep(received, responseData, body);
            if responseData[..2] != CRLF {
              return Throw(InvalidChunk);
            }
            removeCrlfAfterChunk := false;
            responseData := responseData[2..];
          }
          var i := FindCrlf(responseData);
          if i == |responseData| {
            StuckStep(received, responseData, body, expectedChunkSize, removeCrlfAfterChunk);
            return ReadOn;
          }
          SizeStep(received, responseData, body);
          var size := HexStringToUint(responseData[..i]);
          if size == None {
            return Throw(InvalidHexDigit);
          }
          expectedChunkSize := size.value;
          responseData := responseData[i + 2..];
          if expectedChunkSize == 0 {
            return Return;
          }
        }
      }
    }
  }

  // ---------- A whole run ----------

  /** The bytes of the reads up to the first empty one, which means that the server has disconnected. */
  function Delivered(parts: seq<Text>): Text {
    if parts == [] || parts[0] == [] then [] else parts[0] + Delivered(parts[1..])
  }

  lemma DeliveredNext(received: Text, parts: seq<Text>, k: nat)
    requires k < |parts| && parts[k] != []
    ensures received + Delivered(parts[k..]) == received + parts[k] + Delivered(parts[k + 1..])
  {
    assert parts[k..][1..] == parts[k + 1..];
  }

  /** What the caller gets: a response or an exception. */
  datatype Reply = Response(body: Text) | Thrown(error: Error)

  /** A body cut short by the server is handed over like a complete one. */
  function ReplyOf(outcome: Outcome): Reply {
    if outcome.Invalid? then Thrown(outcome.error) else Response(outcome.body)
  }

  /** Feeds what is left of the header read and then one read after the other: the outcome depends on
      the bytes and not on how they are split. */
  method ReceiveBody(first: Text, parts: seq<Text>) returns (reply: Reply)
    ensures reply == ReplyOf(DecodeSize(first + Delivered(parts), []))
  {
    hide DecodeSize;
    var decoder := new ChunkDecoder();
    var verdict := decoder.Receive(first);
    var k := 0;
    assert parts[0..] == parts && [] + first == first;
    ghost var all := first + Delivered(parts);
    while verdict == ReadOn && k < |parts| && parts[k] != []
      invariant k <= |parts| && fresh(decoder) && all == decoder.received + Delivered(parts[k..])
      invariant verdict.ReadOn? ==> decoder.Valid() && DecodeSize(decoder.received, []) == Partial(decoder.body)
      invariant verdict.Return? ==> Settled(decoder.received, Complete(decoder.body))
      invariant verdict.Throw? ==> Settled(decoder.received, Invalid(verdict.error))
      decreases |parts| - k
    {
      DeliveredNext(decoder.received, parts, k);
      verdict := decoder.Receive(parts[k]);
      k := k + 1;
    }
    match verdict {
      case ReadOn =>
        assert Delivered(parts[k..]) == [];
        assert all == decoder.received;
        reply := Response(decoder.body);
      case Return => reply := Response(decoder.body);
      case Throw(error) => reply := Thrown(error);
    }
  }

  // ---------- Bodies cut short ----------

  lemma {:induction false} BodyGrows(t: Text, body: Text)
    ensures !DecodeSize(t, body).Invalid? ==> body <= DecodeSize(t, body).body
    decreases |t|, 0
  {
    hide SizeOf;
    var i := FindCrlf(t);
    if i < |t| && SizeOf(t[..i]).Some? && SizeOf(t[..i]).value > 0 {
      DataGrows(t[i + 2..], body, SizeOf(t[..i]).value);
    }
  }

  lemma {:induction false} DataGrows(t: Text, body: Text, n: nat)
    ensures !DecodeData(t, body, n).Invalid? ==> body <= DecodeData(t, body, n).body
    decreases |t|, 2
  {
    if n <= |t| { EndGrows(t[n..], body + t[..n]); }
  }

  lemma {:induction false} EndGrows(t: Text, body: Text)
    ensures !DecodeEnd(t, body).Invalid? ==> body <= DecodeEnd(t, body).body
    decreases |t|, 1
  {
    if |t| >= 2 { BodyGrows(t[2..], body); }
  }

  /** When more text comes, an outcome stays or, if it was partial, becomes an error or a longer body. */
  predicate Extends(longer: Outcome, shorter: Outcome) {
    if shorter.Partial? then longer.Invalid? || shorter.body <= longer.body else longer == shorter
  }

  lemma {:induction false} MoreText(t: Text, more: Text, body: Text)
    ensures Extends(DecodeSize(t + more, body), DecodeSize(t, body))
    decreases |t|
  {
    hide SizeOf;
    var i := FindCrlf(t);
    if i == |t| {
      BodyGrows(t + more, body);
    } else {
      SizeLineBefore(t, body, more);
      var size := SizeOf(t[..i]);
      if size.Some? && size.value > 0 {
        MoreData(t[i + 2..], more, body, size.value);
      }
    }
  }

  lemma {:induction false} MoreData(t: Text, more: Text, body: Text, n: nat)
    ensures Extends(DecodeData(t + more, body, n), DecodeData(t, body, n))
    decreases |t|
  {
    if |t| < n {
      DataShort(t, body, n);
      DataGrows([] + more, body + t, n - |t|);
    } else {
      DataWhole(t, body, n);
      var end, now := t[n..], body + t[..n];
      if |end| < 2 {
        EndGrows(end + more, now);
      } else {
        LineEnd(end, now);
        MoreText(end[2..], more, now);
      }
    }
  }

  /** Wherever the connection breaks off inside a body that would be complete, the caller gets a response
      with the first part of its content. */
  lemma CutShort(t: Text, k: nat, body: Text)
    requires k <= |t| && DecodeSize(t, body).Complete?
    ensures var reply := ReplyOf(DecodeSize(t[..k], body));
      reply.Response? && reply.body <= DecodeSize(t, body).body
  {
    hide DecodeSize;
    assert t == t[..k] + t[k..];
    MoreText(t[..k], t[k..], body);
  }

  // ---------- Well-formed bodies ----------

  /** A chunk as sent: its size line and its payload. */
  datatype Chunk = Chunk(size: Text, payload: Text)

  predicate IsChunk(c: Chunk) {
    c.payload != [] && AllHex(c.size) && HexValue(c.size) % WORD == |c.payload|
  }

  predicate AreChunks(chunks: seq<Chunk>) { forall c :: c in chunks ==> IsChunk(c) }

  /** The end of the body: a size line that stands for zero. */
  predicate IsLast(size: Text) { AllHex(size) && HexValue(size) % WORD == 0 }

  function ChunkText(c: Chunk): Text { c.size + CRLF + c.payload + CRLF }

  function BodyText(chunks: seq<Chunk>, last: Text): Text {
    if chunks == [] then last + CRLF else ChunkText(chunks[0]) + BodyText(chunks[1..], last)
  }

  function Payloads(chunks: seq<Chunk>): Text {
    if chunks == [] then [] else chunks[0].payload + Payloads(chunks[1..])
  }

  lemma HexHasNoCr(size: Text)
    requires AllHex(size)
    ensures CR !in size
  {}

  lemma ChunkStep(c: Chunk, rest: Text, body: Text)
    requires IsChunk(c)
    ensures DecodeSize(ChunkText(c) + rest, body) == DecodeSize(rest, body + c.payload)
  {
    hide HexValue, DecodeSize, DecodeData, DecodeEnd;
    var line, n, t2, t3 := c.size + CRLF, |c.payload|, c.payload + (CRLF + rest), CRLF + rest;
    HexHasNoCr(c.size);
    FindAfter(c.size, []);
    assert line + [] == line && line[..|c.size|] == c.size && line[|c.size| + 2..] == [];
    SizeLine(line, body);
    assert DecodeSize(line + t2, body) == DecodeData([] + t2, body, n);
    DataWhole(c.payload, body, n);
    assert DecodeData(c.payload + t3, body, n) == DecodeEnd(c.payload[n..] + t3, body + c.payload[..n]);
    LineEnd(CRLF, body + c.payload);
    assert DecodeEnd(CRLF + rest, body + c.payload) == DecodeSize(CRLF[2..] + rest, body + c.payload);
    assert [] + t2 == t2 && c.payload[n..] + t3 == t3 && c.payload[..n] == c.payload && CRLF[2..] + rest == rest;
    assert ChunkText(c) + rest == line + t2;
  }

  /** A well-formed body decodes to its payloads, whatever comes behind it. */
  lemma {:induction false} BodyDecodes(chunks: seq<Chunk>, last: Text, rest: Text, body: Text)
    requires AreChunks(chunks) && IsLast(last)
    ensures DecodeSize(BodyText(chunks, last) + rest, body) == Complete(body + Payloads(chunks))
  {
    hide DecodeSize, ChunkText;
    if chunks == [] {
      var t := BodyText(chunks, last) + rest;
      assert t == last + CRLF + rest;
      HexHasNoCr(last);
      FindAfter(last, rest);
      assert t[..|last|] == last;
      assert body + [] == body;
      LastStep(t, body);
    } else {
      var c, tail := chunks[0], BodyText(chunks[1..], last);
      assert BodyText(chunks, last) + rest == ChunkText(c) + (tail + rest);
      ChunkStep(c, tail + rest, body);
      BodyDecodes(chunks[1..], last, rest, body + c.payload);
      assert body + c.payload + Payloads(chunks[1..]) == body + Payloads(chunks);
    }
  }

  lemma LastStep(t: Text, body: Text)
    requires FindCrlf(t) < |t| && IsLast(t[..FindCrlf(t)])
    ensures DecodeSize(t, body) == Complete(body)
  {}

  ghost predicate IsBody(t: Text, body: Text, result: Text) {
    exists chunks, last, rest ::
      AreChunks(chunks) && IsLast(last) && t == BodyText(chunks, last) + rest && result == body + Payloads(chunks)
  }

  /** A text that decodes completely begins with a size line and, unless that says zero, with a payload
      and a line end. */
  lemma CompleteStep(t: Text, body: Text, result: Text)
    requires DecodeSize(t, body) == Complete(result)
    ensures FindCrlf(t) < |t| && SizeOf(t[..FindCrlf(t)]).Some?
    ensures var after, n := t[FindCrlf(t) + 2..], SizeOf(t[..FindCrlf(t)]).value;
      if n == 0 then result == body
      else
        n + 2 <= |after| && after[n..][..2] == CRLF
        && DecodeSize(after[n..][2..], body + after[..n]) == Complete(result)
  {
    hide SizeOf;
    var after := t[FindCrlf(t) + 2..];
    var n := SizeOf(t[..FindCrlf(t)]).value;
    if n > 0 {
      assert DecodeData(after, body, n) == Complete(result);
      assert DecodeEnd(after[n..], body + after[..n]) == Complete(result);
    }
  }

  /** Only well-formed bodies decode completely. */
  lemma {:induction false} CompleteIsBody(t: Text, body: Text, result: Text)
    requires DecodeSize(t, body) == Complete(result)
    ensures IsBody(t, body, result)
    decreases |t|
  {
    hide DecodeSize, HexValue, IsBody;
    CompleteStep(t, body, result);
    var i := FindCrlf(t);
    var size, after := t[..i], t[i + 2..];
    LineSplit(t, i);
    var n := SizeOf(size).value;
    if n == 0 {
      IsBodyLast(size, after, body);
    } else {
      var c, tail := Chunk(size, after[..n]), after[n..][2..];
      CompleteIsBody(tail, body + c.payload, result);
      PayloadSplit(after, n);
      IsBodyFrom(c, tail, body, result);
    }
  }

  lemma LineSplit(t: Text, i: nat)
    requires CrlfAt(t, i)
    ensures t == t[..i] + CRLF + t[i + 2..]
  {}

  lemma PayloadSplit(after: Text, n: nat)
    requires n + 2 <= |after| && after[n..][..2] == CRLF
    ensures after == after[..n] + CRLF + after[n..][2..]
  {
    assert after[n..] == after[n..][..2] + after[n..][2..];
    assert after == after[..n] + after[n..];
  }

  lemma IsBodyLast(last: Text, rest: Text, body: Text)
    requires IsLast(last)
    ensures IsBody(last + CRLF + rest, body, body)
  {
    assert AreChunks([]) && BodyText([], last) + rest == last + CRLF + rest;
    assert body + Payloads([]) == body;
  }

  lemma IsBodyFrom(c: Chunk, tail: Text, body: Text, result: Text)
    requires IsChunk(c) && IsBody(tail, body + c.payload, result)
    ensures IsBody(c.size + CRLF + (c.payload + CRLF + tail), body, result)
  {
    hide IsChunk, IsLast;
    var chunks, last, rest :| AreChunks(chunks) && IsLast(last) && tail == BodyText(chunks, last) + rest
                              && result == body + c.payload + Payloads(chunks);
    var all := [c] + chunks;
    assert all[1..] == chunks && AreChunks(all);
    assert BodyText(all, last) + rest == c.size + CRLF + (c.payload + CRLF + tail);
    assert body + Payloads(all) == result;
  }
}
