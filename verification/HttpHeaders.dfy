/** Header fields (RFC 7230 section 3.2): the printer, the parser, and what the parser makes of what
    the printer writes. */
module HttpHeaders {
  import opened Spans
  import opened HttpText

  datatype Field = Field(name: Text, value: Text)

  datatype Error = InvalidFieldName | InvalidFieldValue | InvalidToken | InvalidHeader

  datatype Result<+T> = Success(value: T) | Failure(error: Error)

  // ---------- The printer ----------

  function FieldError(f: Field): (e: Result<()>) {
    if f.name == [] || !AllToken(f.name) then Failure(InvalidFieldName)
    else if !AllField(f.value) then Failure(InvalidFieldValue)
    else Success(())
  }

  function FieldText(f: Field): Text { f.name + [0x3A, 0x20] + f.value + CRLF }

  function FieldsText(fields: seq<Field>): Text {
    if fields == [] then [] else FieldText(fields[0]) + FieldsText(fields[1..])
  }

  predicate AllGood(fields: seq<Field>) { forall f :: f in fields ==> FieldError(f).Success? }

  /** The first field that cannot be printed. */
  ghost predicate FailsFirst(fields: seq<Field>, error: Error) {
    exists k :: 0 <= k < |fields| && AllGood(fields[..k]) && FieldError(fields[k]) == Failure(error)
  }

  lemma {:induction false} FieldsTextAppend(fields: seq<Field>, f: Field)
    ensures FieldsText(fields + [f]) == FieldsText(fields) + FieldText(f)
  {
    if fields == [] {
      assert (fields + [f])[1..] == [];
      assert FieldText(f) + [] == FieldText(f);
    } else {
      assert (fields + [f])[1..] == fields[1..] + [f];
      FieldsTextAppend(fields[1..], f);
    }
  }

  method CheckField(f: Field) returns (e: Result<()>)
    ensures e == FieldError(f)
  {
    if f.name == [] { return Failure(InvalidFieldName); }
    for i := 0 to |f.name|
      invariant forall k :: 0 <= k < i ==> IsToken(f.name[k])
    {
      if !IsToken(f.name[i]) { return Failure(InvalidFieldName); }
    }
    for i := 0 to |f.value|
      invariant forall k :: 0 <= k < i ==> IsFieldByte(f.value[k])
    {
      if !IsWhiteSpace(f.value[i]) && !IsVisible(f.value[i]) && !IsObsoleteText(f.value[i]) {
        assert f.value[i] in f.value && AllToken(f.name);
        return Failure(InvalidFieldValue);
      }
    }
    e := Success(());
  }

  method EncodeHeaderFields(fields: seq<Field>) returns (r: Result<Text>)
    ensures r.Success? <==> AllGood(fields)
    ensures r.Success? ==> r.value == FieldsText(fields)
    ensures r.Failure? ==> FailsFirst(fields, r.error)
  {
    hide FieldError, FieldText;
    var result := [];
    assert fields[..0] == [];
    for i := 0 to |fields|
      invariant AllGood(fields[..i]) && result == FieldsText(fields[..i])
    {
      var e := CheckField(fields[i]);
      if e.Failure? { return Failure(e.error); }
      FieldsTextAppend(fields[..i], fields[i]);
      assert fields[..i + 1] == fields[..i] + [fields[i]];
      result := result + (fields[i].name + [0x3A, 0x20] + fields[i].value + CRLF);
      assert FieldText(fields[i])
          == fields[i].name + [0x3A, 0x20] + fields[i].value + CRLF by { TextOfField(fields[i]); }
    }
    assert fields[..|fields|] == fields;
    r := Success(result);
  }

  lemma TextOfField(f: Field)
    ensures FieldText(f) == f.name + [0x3A, 0x20] + f.value + CRLF
  {}

  // ---------- What the parser should return ----------

  function TrimLeft(v: Text): Text { v[Span(v, IsWhiteSpace)..] }

  function TrimRight(v: Text): Text {
    if v == [] || !IsWhiteSpace(v[|v| - 1]) then v else TrimRight(v[..|v| - 1])
  }

  function Trimmed(v: Text): Text { TrimRight(TrimLeft(v)) }

  /** A line end and a blank: the value goes on in the next line (RFC 7230 section 3.2.4). */
  predicate IsFold(t: Text, i: nat) { CrlfAt(t, i) && i + 2 < |t| && IsWhiteSpace(t[i + 2]) }

  /** The value at the head of the text, with folded lines joined by a blank, and its extent. */
  function Content(t: Text): (r: (nat, Text))
    ensures r.0 <= |t|
    decreases |t|
  {
    var n := Span(t, IsFieldByte);
    var value := TrimRight(t[..n]);
    if IsFold(t, n) then
      var rest := Content(t[n + 3..]);
      (n + 3 + rest.0, value + [0x20] + rest.1)
    else (n, value)
  }

  /** The field at the head of the text and its extent. */
  function FieldOf(t: Text): (r: Result<(nat, Field)>)
    ensures r.Success? ==> 0 < r.value.0 <= |t|
  {
    var n := Span(t, IsToken);
    if n == 0 then Failure(InvalidToken)
    else if n == |t| || t[n] != 0x3A then Failure(InvalidHeader)
    else
      var v := n + 1 + Span(t[n + 1..], IsWhiteSpace);
      var c := Content(t[v..]);
      var e := v + c.0;
      if CrlfAt(t, e) then Success((e + 2, Field(t[..n], c.1))) else Failure(InvalidHeader)
  }

  /** One field after the other until the text is used up; at least one. */
  function FieldsOf(t: Text): Result<seq<Field>>
    decreases |t|
  {
    var first := FieldOf(t);
    if first.Failure? then Failure(first.error)
    else if first.value.0 == |t| then Success([first.value.1])
    else
      var rest := FieldsOf(t[first.value.0..]);
      if rest.Failure? then rest else Success([first.value.1] + rest.value)
  }

  // ---------- The parser ----------

  method ParseToken(t: Text, begin: nat) returns (r: Result<(nat, Text)>)
    requires begin <= |t|
    ensures var n := Span(t[begin..], IsToken);
      r == if n == 0 then Failure(InvalidToken) else Success((begin + n, t[begin..][..n]))
  {
    var result := [];
    var i := begin;
    while i != |t| && IsToken(t[i])
      invariant begin <= i <= |t| && result == t[begin..i] && forall k :: begin <= k < i ==> IsToken(t[k])
    {
      result := result + [t[i]];
      i := i + 1;
    }
    SpanIs(t[begin..], IsToken, i - begin);
    assert t[begin..][..i - begin] == t[begin..i];
    if result == [] { return Failure(InvalidToken); }
    r := Success((i, result));
  }

  method SkipWhiteSpaces(t: Text, begin: nat) returns (i: nat)
    requires begin <= |t|
    ensures i == begin + Span(t[begin..], IsWhiteSpace)
  {
    i := begin;
    while i != |t|
      invariant begin <= i <= |t| && forall k :: begin <= k < i ==> IsWhiteSpace(t[k])
    {
      if !IsWhiteSpace(t[i]) { break; }
      i := i + 1;
    }
    SpanIs(t[begin..], IsWhiteSpace, i - begin);
  }

  method ParseFieldValue(t: Text, begin: nat) returns (i: nat, result: Text)
    requires begin <= |t|
    ensures i == begin + Span(t[begin..], IsFieldByte) && result == TrimRight(t[begin..][..i - begin])
  {
    result := [];
    i := begin;
    while i != |t| && (IsWhiteSpace(t[i]) || IsVisible(t[i]) || IsObsoleteText(t[i]))
      invariant begin <= i <= |t| && result == t[begin..i] && forall k :: begin <= k < i ==> IsFieldByte(t[k])
    {
      result := result + [t[i]];
      i := i + 1;
    }
    SpanIs(t[begin..], IsFieldByte, i - begin);
    assert t[begin..][..i - begin] == t[begin..i];
    ghost var whole := result;
    while result != [] && IsWhiteSpace(result[|result| - 1])
      invariant TrimRight(result) == TrimRight(whole)
    {
      result := result[..|result| - 1];
    }
  }

  method ParseFieldContent(t: Text, begin: nat) returns (i: nat, result: Text)
    requires begin <= |t|
    ensures begin <= i && Content(t[begin..]) == (i - begin, result)
  {
    hide Content, TrimRight, Span;
    result := [];
    i := begin;
    ghost var all := Content(t[begin..]);
    assert [] + all.1 == all.1;
    while true
      invariant begin <= i <= |t|
      invariant all == (i - begin + Content(t[i..]).0, result + Content(t[i..]).1)
      decreases |t| - i
    {
      ghost var at, before := i, result;
      var value;
      i, value := ParseFieldValue(t, i);
      ContentNext(t, at);
      result := result + value;
      var fold := i;
      if fold == |t| || t[fold] != CR { break; }
      fold := fold + 1;
      if fold == |t| || t[fold] != LF { break; }
      fold := fold + 1;
      if fold == |t| || !IsWhiteSpace(t[fold]) { break; }
      fold := fold + 1;
      result := result + [0x20];
      i := fold;
      ghost var rest := Content(t[i..]).1;
      assert before + (value + [0x20] + rest) == before + value + [0x20] + rest;
    }
  }

  lemma ContentNext(t: Text, at: nat)
    requires at <= |t|
    ensures var n := Span(t[at..], IsFieldByte);
      var value := TrimRight(t[at..][..n]);
      Content(t[at..]) == if IsFold(t, at + n)
                          then (n + 3 + Content(t[at + n + 3..]).0, value + [0x20] + Content(t[at + n + 3..]).1)
                          else (n, value)
  {
    hide Span, TrimRight, CrlfAt;
    var n := Span(t[at..], IsFieldByte);
    CrlfInside(t, at, n);
    if IsFold(t, at + n) {
      DropTwice(t, at, n + 3);
    }
  }

  /** A field that begins at a position of a longer text. */
  lemma FieldAt(t: Text, begin: nat)
    requires begin <= |t|
    ensures var n := Span(t[begin..], IsToken);
      var i := begin + n;
      FieldOf(t[begin..])
      == if n == 0 then Failure(InvalidToken)
         else if i == |t| || t[i] != 0x3A then Failure(InvalidHeader)
         else
           var v := i + 1 + Span(t[i + 1..], IsWhiteSpace);
           var c := Content(t[v..]);
           var e := v + c.0;
           if CrlfAt(t, e) then Success((e + 2 - begin, Field(t[begin..][..n], c.1))) else Failure(InvalidHeader)
  {
    hide Content, Span, CrlfAt;
    var s, n := t[begin..], Span(t[begin..], IsToken);
    if 0 < n < |s| && s[n] == 0x3A {
      DropTwice(t, begin, n + 1);
      var v := n + 1 + Span(s[n + 1..], IsWhiteSpace);
      DropTwice(t, begin, v);
      CrlfInside(t, begin, v + Content(s[v..]).0);
    }
  }

  lemma DropTwice(t: Text, a: nat, b: nat)
    requires a + b <= |t|
    ensures t[a..][b..] == t[a + b..]
  {}

  lemma CrlfInside(t: Text, a: nat, i: nat)
    requires a <= |t|
    ensures CrlfAt(t[a..], i) == CrlfAt(t, a + i)
  {}

  method ParseHeaderField(t: Text, begin: nat) returns (r: Result<(nat, Field)>)
    requires begin <= |t|
    ensures var f := FieldOf(t[begin..]);
      r == if f.Failure? then Failure(f.error) else Success((begin + f.value.0, f.value.1))
  {
    hide Content, FieldOf, Span;
    FieldAt(t, begin);
    var token := ParseToken(t, begin);
    if token.Failure? { return Failure(token.error); }
    var i := token.value.0;
    if i == |t| || t[i] != 0x3A { return Failure(InvalidHeader); }
    i := i + 1;
    i := SkipWhiteSpaces(t, i);
    var value;
    i, value := ParseFieldContent(t, i);
    if i == |t| || t[i] != CR { return Failure(InvalidHeader); }
    i := i + 1;
    if i == |t| || t[i] != LF { return Failure(InvalidHeader); }
    i := i + 1;
    r := Success((i, Field(token.value.1, value)));
  }

  /** The fields read so far, followed by what the rest gives. */
  function Prepend(fields: seq<Field>, rest: Result<seq<Field>>): Result<seq<Field>> {
    if rest.Failure? then rest else Success(fields + rest.value)
  }

  lemma PrependNext(fields: seq<Field>, t: Text)
    ensures var f := FieldOf(t);
      Prepend(fields, FieldsOf(t))
      == if f.Failure? then Failure(f.error)
         else if f.value.0 == |t| then Success(fields + [f.value.1])
         else Prepend(fields + [f.value.1], FieldsOf(t[f.value.0..]))
  {
    hide FieldOf;
    var f := FieldOf(t);
    if f.Success? && f.value.0 < |t| {
      var rest := FieldsOf(t[f.value.0..]);
      if rest.Success? {
        assert fields + ([f.value.1] + rest.value) == fields + [f.value.1] + rest.value;
      }
    }
  }

  /** The loop over the header lines of a response. */
  method ParseHeaderFields(t: Text) returns (r: Result<seq<Field>>)
    ensures r == FieldsOf(t)
  {
    hide FieldOf, FieldsOf;
    var fields := [];
    var i := 0;
    assert t[0..] == t;
    assert FieldsOf(t).Success? ==> [] + FieldsOf(t).value == FieldsOf(t).value;
    while true
      invariant 0 <= i <= |t| && FieldsOf(t) == Prepend(fields, FieldsOf(t[i..]))
      decreases |t| - i
    {
      PrependNext(fields, t[i..]);
      var f := ParseHeaderField(t, i);
      if f.Failure? { return Failure(f.error); }
      assert t[i..][f.value.0 - i..] == t[f.value.0..];
      fields := fields + [f.value.1];
      i := f.value.0;
      if i == |t| { return Success(fields); }
    }
  }

  // ---------- What the printer writes is read back ----------

  predicate NoFoldAhead(rest: Text) { rest == [] || !IsWhiteSpace(rest[0]) }

  lemma ValueReadBack(value: Text, rest: Text)
    requires AllField(value) && NoFoldAhead(rest)
    ensures Content(value + CRLF + rest) == (|value|, TrimRight(value))
  {
    hide TrimRight;
    var t := value + CRLF + rest;
    forall k | 0 <= k < |value|
      ensures IsFieldByte(t[k])
    {
      assert t[k] == value[k] && value[k] in value;
    }
    assert t[|value|] == CR && !IsFieldByte(CR);
    SpanIs(t, IsFieldByte, |value|);
    assert t[..|value|] == value;
    assert |value| + 2 < |t| ==> t[|value| + 2] == rest[0];
  }

  lemma BlanksReadBack(value: Text, rest: Text)
    ensures Span([0x20] + value + CRLF + rest, IsWhiteSpace) == 1 + Span(value, IsWhiteSpace)
  {
    var t, k := [0x20] + value + CRLF + rest, Span(value, IsWhiteSpace);
    forall j | 0 <= j < k + 1
      ensures IsWhiteSpace(t[j])
    {
      if j > 0 { assert t[j] == value[j - 1]; }
    }
    assert t[k + 1] == if k < |value| then value[k] else CR;
    SpanIs(t, IsWhiteSpace, k + 1);
  }

  lemma NameReadBack(name: Text, after: Text)
    requires AllToken(name)
    ensures Span(name + [0x3A] + after, IsToken) == |name|
  {
    var t := name + [0x3A] + after;
    forall k | 0 <= k < |name|
      ensures IsToken(t[k])
    {
      assert t[k] == name[k] && name[k] in name;
    }
    SpanIs(t, IsToken, |name|);
  }

  /** A printed field is read back, whole and without the outer blanks of its value; the line behind it
      is not taken for a folded part. */
  lemma FieldReadBack(f: Field, rest: Text)
    requires FieldError(f).Success? && NoFoldAhead(rest)
    ensures FieldOf(FieldText(f) + rest) == Success((|FieldText(f)|, Field(f.name, Trimmed(f.value))))
  {
    hide Content, Span, IsToken, IsFieldByte, TrimRight, AllToken, NoFoldAhead, FieldText, CrlfAt;
    var n, k := |f.name|, Span(f.value, IsWhiteSpace);
    var after := [0x20] + f.value + CRLF + rest;
    FieldLayout(f, rest, k);
    NameReadBack(f.name, after);
    BlanksReadBack(f.value, rest);
    ValueReadBack(f.value[k..], rest);
  }

  lemma FieldLayout(f: Field, rest: Text, k: nat)
    requires k <= |f.value|
    ensures var n, t := |f.name|, FieldText(f) + rest;
      t == f.name + [0x3A] + ([0x20] + f.value + CRLF + rest) && |FieldText(f)| == n + 4 + |f.value|
      && t[n] == 0x3A && t[..n] == f.name && t[n + 1..] == [0x20] + f.value + CRLF + rest
      && t[n + 2 + k..] == f.value[k..] + CRLF + rest && CrlfAt(t, n + 2 + |f.value|)
  {}

  function TrimValues(fields: seq<Field>): (r: seq<Field>)
    ensures |r| == |fields|
  {
    seq(|fields|, i requires 0 <= i < |fields| => Field(fields[i].name, Trimmed(fields[i].value)))
  }

  lemma PrintedIsNoFold(fields: seq<Field>)
    requires AllGood(fields)
    ensures NoFoldAhead(FieldsText(fields))
  {
    if fields != [] {
      assert fields[0] in fields;
      var c := fields[0].name[0];
      assert c in fields[0].name && IsToken(c) && FieldsText(fields)[0] == c;
    }
  }

  /** The printed list is read back to its end, with the values trimmed. */
  lemma {:induction false} FieldsReadBack(fields: seq<Field>)
    requires AllGood(fields) && fields != []
    ensures FieldsOf(FieldsText(fields)) == Success(TrimValues(fields))
  {
    hide FieldOf, FieldText, FieldError, Trimmed, NoFoldAhead;
    var f, more := fields[0], fields[1..];
    var rest := FieldsText(more);
    assert f in fields && AllGood(more);
    PrintedIsNoFold(more);
    FieldReadBack(f, rest);
    assert (FieldText(f) + rest)[|FieldText(f)|..] == rest;
    assert TrimValues(fields) == [Field(f.name, Trimmed(f.value))] + TrimValues(more);
    if more == [] {
      assert TrimValues(fields) == [Field(f.name, Trimmed(f.value))];
      assert rest == [] && FieldText(f) + rest == FieldText(f);
    } else {
      assert rest != [] by { PrintedIsSome(more); }
      FieldsReadBack(more);
    }
  }

  lemma PrintedIsSome(fields: seq<Field>)
    requires fields != []
    ensures FieldsText(fields) != []
  {
    assert |FieldText(fields[0])| >= 2;
  }

  predicate NoOuterWhiteSpace(v: Text) { v != [] ==> !IsWhiteSpace(v[0]) && !IsWhiteSpace(v[|v| - 1]) }

  lemma {:induction false} TrimRightShrinks(v: Text)
    ensures |TrimRight(v)| <= |v|
    ensures v != [] && IsWhiteSpace(v[|v| - 1]) ==> |TrimRight(v)| < |v|
  {
    if v != [] && IsWhiteSpace(v[|v| - 1]) { TrimRightShrinks(v[..|v| - 1]); }
  }

  lemma TrimmedIsSame(v: Text)
    ensures Trimmed(v) == v <==> NoOuterWhiteSpace(v)
  {
    if v != [] {
      TrimRightShrinks(TrimLeft(v));
      if !IsWhiteSpace(v[0]) {
        SpanIs(v, IsWhiteSpace, 0);
        assert TrimLeft(v) == v;
      } else {
        assert Span(v, IsWhiteSpace) > 0;
      }
    }
  }

  lemma TrimmedIsSameList(fields: seq<Field>)
    ensures TrimValues(fields) == fields <==> forall f :: f in fields ==> NoOuterWhiteSpace(f.value)
  {
    hide Trimmed, NoOuterWhiteSpace;
    forall i | 0 <= i < |fields|
      ensures TrimValues(fields)[i] == fields[i] <==> NoOuterWhiteSpace(fields[i].value)
    {
      TrimmedIsSame(fields[i].value);
    }
    if TrimValues(fields) == fields {
      forall f | f in fields
        ensures NoOuterWhiteSpace(f.value)
      {
        var i :| 0 <= i < |fields| && fields[i] == f;
        assert TrimValues(fields)[i] == fields[i];
      }
    }
    if forall f :: f in fields ==> NoOuterWhiteSpace(f.value) {
      assert forall i :: 0 <= i < |fields| ==> fields[i] in fields;
    }
  }

  /** A printable list comes back unchanged exactly when it has a field and no value has outer blanks. */
  lemma RoundTrip(fields: seq<Field>)
    requires AllGood(fields)
    ensures FieldsOf(FieldsText(fields)) == Success(fields)
       <==> fields != [] && forall f :: f in fields ==> NoOuterWhiteSpace(f.value)
  {
    if fields == [] {
      NoFieldsIsRejected();
    } else {
      hide FieldsOf, FieldsText, Trimmed, NoOuterWhiteSpace;
      FieldsReadBack(fields);
      TrimmedIsSameList(fields);
    }
  }

  /** RFC 7230 allows a message without header fields; the loop rejects it. */
  lemma NoFieldsIsRejected()
    ensures FieldsText([]) == [] && FieldsOf([]) == Failure(InvalidToken)
  {}
}
