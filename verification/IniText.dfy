/** Lines of an INI file: blanks, lower case, the `sscanf` patterns and the classification of a line. */
module IniText {
  import opened Spans
  import opened Wrappers

  const ASCIILINESZ: nat := 1024

  // ---------- Blanks and case ----------

  predicate IsSpace(c: char) { c == ' ' || 9 <= c as int <= 13 }

  function ToLower(c: char): char { if 'A' <= c <= 'Z' then (c as int + 32) as char else c }

  function Lower(s: string): (r: string)
    ensures |r| == |s|
  {
    seq(|s|, i requires 0 <= i < |s| => ToLower(s[i]))
  }

  /** Lower case of at most len - 1 characters. */
  function Strlwc(s: string, len: nat): string
    requires len > 0
  {
    Lower(s)[..if |s| < len - 1 then |s| else len - 1]
  }

  function TrimStart(s: string): string { s[Span(s, IsSpace)..] }

  function TrimEnd(s: string): string {
    if s == [] || !IsSpace(s[|s| - 1]) then s else TrimEnd(s[..|s| - 1])
  }

  function Stripped(s: string): string { TrimEnd(TrimStart(s)) }

  predicate NoOuterBlanks(s: string) { s != [] ==> !IsSpace(s[0]) && !IsSpace(s[|s| - 1]) }

  lemma {:induction false} TrimEndBlanks(s: string, blanks: string)
    requires (s != [] ==> !IsSpace(s[|s| - 1])) && forall c :: c in blanks ==> IsSpace(c)
    ensures TrimEnd(s + blanks) == s
  {
    if blanks == [] {
      assert s + blanks == s;
    } else {
      var last := |blanks| - 1;
      assert blanks[last] in blanks;
      assert (s + blanks)[..|s + blanks| - 1] == s + blanks[..last];
      TrimEndBlanks(s, blanks[..last]);
    }
  }

  lemma StripBlanks(s: string, blanks: string)
    requires NoOuterBlanks(s) && forall c :: c in blanks ==> IsSpace(c)
    ensures Stripped(s + blanks) == s
  {
    if s == [] {
      assert s + blanks == blanks;
      forall k | 0 <= k < |blanks|
        ensures IsSpace(blanks[k])
      {
        assert blanks[k] in blanks;
      }
      SpanIs(blanks, IsSpace, |blanks|);
    } else {
      SpanIs(s + blanks, IsSpace, 0);
      assert TrimStart(s + blanks) == s + blanks;
      TrimEndBlanks(s, blanks);
    }
  }

  // ---------- Patterns ----------

  predicate NotEquals(c: char) { c != '=' }
  predicate IsEquals(c: char) { c == '=' }
  predicate NotBracket(c: char) { c != ']' }
  predicate NotDouble(c: char) { c != '"' }
  predicate NotSingle(c: char) { c != '\'' }
  predicate IsRemark(c: char) { c == ';' || c == '#' }
  predicate NotRemark(c: char) { !IsRemark(c) }

  /** `%[^=] = `: a run without equals signs, an equals sign, and the text behind it without leading blanks. */
  function ScanKey(line: string): Option<(string, string)> {
    var r := Span(line, NotEquals);
    var i := r + Span(line[r..], IsSpace);
    if r == 0 || i == |line| || line[i] != '=' then None else Some((line[..r], TrimStart(line[i + 1..])))
  }

  /** `%[^=] = "%[^"]"`, for either quote. */
  function ScanQuoted(line: string, quote: char, inside: char -> bool): Option<(string, string)> {
    var k := ScanKey(line);
    if k == None || k.value.1 == [] || k.value.1[0] != quote then None
    else
      var rest := k.value.1[1..];
      var n := Span(rest, inside);
      if n == 0 then None else Some((k.value.0, rest[..n]))
  }

  /** `%[^=] = %[...]`. */
  function ScanValue(line: string, inside: char -> bool): Option<(string, string)> {
    var k := ScanKey(line);
    if k == None then None
    else
      var n := Span(k.value.1, inside);
      if n == 0 then None else Some((k.value.0, k.value.1[..n]))
  }

  /** `%[^=] %[=]`. */
  function ScanBare(line: string): Option<(string, string)> {
    var r := Span(line, NotEquals);
    var i := r + Span(line[r..], IsSpace);
    var n := Span(line[i..], IsEquals);
    if r == 0 || n == 0 then None else Some((line[..r], line[i..i + n]))
  }

  /** `[%[^]]`; the buffer keeps its text when nothing matches. */
  function ScanSection(line: string, section: string): string {
    if line == [] || line[0] != '[' then section
    else
      var n := Span(line[1..], NotBracket);
      if n == 0 then section else line[1..1 + n]
  }

  // ---------- Lines ----------

  datatype LineStatus = LineEmpty | LineComment | LineSection | LineValue | LineError

  /** The status of a line and the section, key and value it leaves; only the ones its status speaks of
      mean anything. */
  datatype Line = Line(status: LineStatus, section: string, key: string, value: string)

  function KeyAndValue(section: string, len: nat, key: string, value: string): Line
    requires len > 0
  {
    Line(LineValue, section, Strlwc(Stripped(key), len), value)
  }

  function Unquoted(value: string): string {
    if value == "\"\"" || value == "''" then "" else value
  }

  function ParseValue(line: string, section: string): Line
    requires line != []
  {
    var double, single := ScanQuoted(line, '"', NotDouble), ScanQuoted(line, '\'', NotSingle);
    var plain := ScanValue(line, NotRemark);
    var remark, bare := ScanValue(line, IsRemark), ScanBare(line);
    if double.Some? then KeyAndValue(section, |line|, double.value.0, double.value.1)
    else if single.Some? then KeyAndValue(section, |line|, single.value.0, single.value.1)
    else if plain.Some? then KeyAndValue(section, |line|, plain.value.0, Unquoted(Stripped(plain.value.1)))
    else if remark.Some? then KeyAndValue(section, |line|, remark.value.0, "")
    else if bare.Some? then KeyAndValue(section, |line|, bare.value.0, "")
    else Line(LineError, section, "", "")
  }

  function ParseLine(input: string, section: string): Line {
    var line := Stripped(input);
    if line == [] then Line(LineEmpty, section, "", "")
    else if line[0] == '#' || line[0] == ';' then Line(LineComment, section, "", "")
    else if line[0] == '[' && line[|line| - 1] == ']' then
      Line(LineSection, Strlwc(Stripped(ScanSection(line, section)), |line|), "", "")
    else ParseValue(line, section)
  }

  // ---------- Buffers ----------

  /** A character buffer that holds a string. */
  class Buffer {
    var text: string

    constructor (s: string)
      ensures text == s
    {
      text := s;
    }

    /** Removes the outer blanks in place. */
    method Strip() returns (len: nat)
      modifies this
      ensures text == Stripped(old(text)) && len == |text|
    {
      var t := text;
      var s, last := 0, |t|;
      while s < |t| && IsSpace(t[s])
        invariant s <= |t| && forall k :: 0 <= k < s ==> IsSpace(t[k])
      {
        s := s + 1;
      }
      SpanIs(t, IsSpace, s);
      ghost var start := TrimStart(t);
      assert start == t[s..last];
      while last > s
        invariant s <= last <= |t| && TrimEnd(start) == TrimEnd(t[s..last])
      {
        if !IsSpace(t[last - 1]) { break; }
        assert t[s..last][..last - s - 1] == t[s..last - 1];
        last := last - 1;
      }
      text := t[s..last];
      len := last - s;
    }

    /** Lower case in place, at most len - 1 characters. */
    method Lowercase(len: nat)
      requires len > 0
      modifies this
      ensures text == Strlwc(old(text), len)
    {
      var i := 0;
      var out := "";
      while i < |text| && i < len - 1
        invariant i <= |text| && i <= len - 1 && out == Lower(text)[..i]
      {
        out := out + [ToLower(text[i])];
        i := i + 1;
      }
      text := out;
    }
  }

  /** Classifies a line; section, key and value receive what it says. */
  method IniparserLine(inputLine: string, section: Buffer, key: Buffer, value: Buffer) returns (sta: LineStatus)
    requires section != key && section != value && key != value
    modifies section, key, value
    ensures var want := ParseLine(inputLine, old(section.text));
      sta == want.status && section.text == want.section
      && (sta.LineValue? ==> key.text == want.key && value.text == want.value)
  {
    var line := new Buffer(inputLine);
    var len := line.Strip();
    var t := line.text;
    if len < 1 {
      sta := LineEmpty;
    } else if t[0] == '#' || t[0] == ';' {
      sta := LineComment;
    } else if t[0] == '[' && t[len - 1] == ']' {
      section.text := ScanSection(t, section.text);
      var _ := section.Strip();
      section.Lowercase(len);
      sta := LineSection;
    } else {
      sta := ReadKeyAndValue(t, section.text, key, value);
    }
  }

  method ReadKeyAndValue(t: string, ghost section: string, key: Buffer, value: Buffer) returns (sta: LineStatus)
    requires t != [] && key != value
    modifies key, value
    ensures var want := ParseValue(t, section);
      sta == want.status && section == want.section
      && (sta.LineValue? ==> key.text == want.key && value.text == want.value)
  {
    hide ScanQuoted, ScanValue, ScanBare, Strlwc, Stripped;
    var len := |t|;
    var double, single := ScanQuoted(t, '"', NotDouble), ScanQuoted(t, '\'', NotSingle);
    var plain := ScanValue(t, NotRemark);
    var remark, bare := ScanValue(t, IsRemark), ScanBare(t);
    if double.Some? || single.Some? {
      var scanned := if double.Some? then double.value else single.value;
      key.text, value.text := scanned.0, scanned.1;
      var _ := key.Strip();
      key.Lowercase(len);
      sta := LineValue;
    } else if plain.Some? {
      key.text, value.text := plain.value.0, plain.value.1;
      var _ := key.Strip();
      key.Lowercase(len);
      var _ := value.Strip();
      if value.text == "\"\"" || value.text == "''" { value.text := ""; }
      sta := LineValue;
    } else if remark.Some? || bare.Some? {
      key.text := if remark.Some? then remark.value.0 else bare.value.0;
      var _ := key.Strip();
      key.Lowercase(len);
      value.text := "";
      sta := LineValue;
    } else {
      sta := LineError;
    }
  }
}
