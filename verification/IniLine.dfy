/** One printed line of an INI file and what the loader reads from it, for every value text. */
module IniLine {
  import opened Spans
  import opened Wrappers
  import opened IniText
  import opened IniLoad
  import opened IniDump

  // ---------- What can be printed ----------

  /** A section name as a header line may hold it: it fits, and has no outer blanks or closing bracket. */
  predicate HeaderName(s: string) {
    s != "" && NoOuterBlanks(s) && ']' !in s && '\n' !in s && |s| <= 1020
  }

  /** One that survives: it has no upper case either. */
  predicate CleanSection(s: string) { HeaderName(s) && Lower(s) == s }

  /** A key as a line may hold it. */
  predicate KeyName(k: string) {
    k != "" && NoOuterBlanks(k) && '=' !in k && '\n' !in k && k[0] != '#' && k[0] != ';'
  }

  predicate CleanName(k: string) { KeyName(k) && Lower(k) == k }

  /** The last character of a text but blanks is c. */
  predicate EndsWith(v: string, c: char) { TrimEnd(v) != "" && TrimEnd(v)[|TrimEnd(v)| - 1] == c }

  /** A key, printed w characters wide, and a value whose line stays one line: it fits the buffer, is not
      continued, and does not look like a section header. */
  predicate CleanLine(k: string, v: string, w: nat) {
    && CleanName(k) && '\n' !in v && |Padded(k, w)| + 3 + |v| <= 1022
    && !EndsWith(v, '\\') && !(k[0] == '[' && EndsWith(v, ']'))
  }

  // ---------- What is read from a value text ----------

  /** What the patterns take from a value text without outer blanks: the quoted part, or what precedes the
      first remark. */
  function LoadedText(s: string): string {
    if s == "" then ""
    else if s[0] == '"' && Span(s[1..], NotDouble) > 0 then s[1..][..Span(s[1..], NotDouble)]
    else if s[0] == '\'' && Span(s[1..], NotSingle) > 0 then s[1..][..Span(s[1..], NotSingle)]
    else Unquoted(Stripped(s[..Span(s, NotRemark)]))
  }

  function LoadedValue(v: string): string { LoadedText(TrimStart(TrimEnd(v))) }

  /** The value texts that are read as they are: no outer blanks, no remark, and no quote that opens something;
      two quotes alone stand for nothing. */
  predicate Survives(v: string) {
    && NoOuterBlanks(v) && ';' !in v && '#' !in v && v != "\"\"" && v != "''"
    && !(|v| > 1 && (v[0] == '"' || v[0] == '\'') && v[1] != v[0])
  }

  lemma {:induction false} TrimEndSplit(v: string)
    ensures var n := |TrimEnd(v)|;
      n <= |v| && v[..n] == TrimEnd(v) && forall c :: c in v[n..] ==> IsSpace(c)
    ensures TrimEnd(v) != "" ==> !IsSpace(TrimEnd(v)[|TrimEnd(v)| - 1])
  {
    if v != "" && IsSpace(v[|v| - 1]) {
      var init := v[..|v| - 1];
      TrimEndSplit(init);
      var n := |TrimEnd(init)|;
      assert v[n..] == init[n..] + [v[|v| - 1]];
    }
  }

  lemma StrippedShorter(s: string)
    ensures |Stripped(s)| <= |s| && (NoOuterBlanks(s) ==> Stripped(s) == s)
  {
    TrimEndSize(TrimStart(s));
    assert s + "" == s;
    if NoOuterBlanks(s) { StripBlanks(s, ""); }
  }

  lemma LoadedTextShorter(s: string)
    ensures |LoadedText(s)| <= |s|
  {
    StrippedShorter(s[..Span(s, NotRemark)]);
  }

  lemma OuterBlanks(v: string)
    ensures |TrimStart(TrimEnd(v))| <= |v|
    ensures NoOuterBlanks(v) ==> TrimStart(TrimEnd(v)) == v
    ensures !NoOuterBlanks(v) ==> |TrimStart(TrimEnd(v))| < |v|
  {
    TrimEndSplit(v);
    var e := TrimEnd(v);
    if NoOuterBlanks(v) {
      if v != "" { SpanIs(v, IsSpace, 0); }
    } else if |e| == |v| {
      assert e == v && IsSpace(v[0]) && Span(v, IsSpace) > 0;
    }
  }

  lemma NoRemark(v: string)
    ensures Span(v, NotRemark) == |v| <==> ';' !in v && '#' !in v
  {
    var n := Span(v, NotRemark);
    if n < |v| {
      assert v[n] in v;
    } else {
      assert forall c :: c in v ==> NotRemark(c);
    }
  }

  /** Exactly these value texts are read as they are. */
  lemma ValueSurvives(v: string)
    ensures LoadedValue(v) == v <==> Survives(v)
  {
    OuterBlanks(v);
    var s := TrimStart(TrimEnd(v));
    LoadedTextShorter(s);
    hide Stripped, TrimStart, TrimEnd;
    if NoOuterBlanks(v) && v != "" {
      NoRemark(v);
      var n := Span(v, NotRemark);
      StrippedShorter(v[..n]);
      assert n == |v| ==> v[..n] == v;
      if |v| > 1 {
        assert v[1..][0] == v[1];
      } else {
        assert v[1..] == "";
      }
    }
  }

  /** Anything between double quotes is read. */
  lemma QuotedIsRead(a: string)
    requires a != "" && '"' !in a
    ensures LoadedValue("\"" + a + "\"") == a
  {
    var v := "\"" + a + "\"";
    OuterBlanks(v);
    hide TrimEnd, TrimStart;
    assert v[1..] == a + "\"";
    forall i | 0 <= i < |a|
      ensures NotDouble((a + "\"")[i])
    {
      assert (a + "\"")[i] == a[i] && a[i] in a;
    }
    SpanIs(a + "\"", NotDouble, |a|);
    assert (a + "\"")[..|a|] == a;
  }

  /** So is anything between single quotes. */
  lemma SingleQuotedIsRead(a: string)
    requires a != "" && '\'' !in a
    ensures LoadedValue("'" + a + "'") == a
  {
    var v := "'" + a + "'";
    OuterBlanks(v);
    hide TrimEnd, TrimStart;
    assert v[1..] == a + "'";
    forall i | 0 <= i < |a|
      ensures NotSingle((a + "'")[i])
    {
      assert (a + "'")[i] == a[i] && a[i] in a;
    }
    SpanIs(a + "'", NotSingle, |a|);
    assert (a + "'")[..|a|] == a;
  }

  /** Without quotes, a value ends at its first remark. */
  lemma RemarkCuts(a: string, rest: string)
    requires a != "" && NoOuterBlanks(a) && ';' !in a && '#' !in a && a[0] != '"' && a[0] != '\''
    requires rest != "" && IsRemark(rest[0]) && !IsSpace(rest[|rest| - 1])
    ensures LoadedValue(a + rest) == a
  {
    var v := a + rest;
    OuterBlanks(v);
    hide TrimEnd, TrimStart, Stripped;
    forall i | 0 <= i < |a|
      ensures NotRemark(v[i])
    {
      assert v[i] == a[i] && a[i] in a;
    }
    SpanIs(v, NotRemark, |a|);
    assert v[..|a|] == a;
    StrippedShorter(a);
  }

  lemma Untrimmed(v: string)
    requires NoOuterBlanks(v)
    ensures TrimEnd(v) == v
  {}

  // ---------- Lines ----------

  lemma LineEnds(c: string, rest: string, room: nat)
    requires '\n' !in c && |c| + 1 < room
    ensures FgetsLength(c + "\n" + rest, room) == |c| + 1
  {
    var t := c + "\n" + rest;
    forall i | 0 <= i < |c|
      ensures NotNewline(t[i])
    {
      assert t[i] == c[i] && c[i] in c;
    }
    assert t[|c|] == '\n';
    SpanIs(t, NotNewline, |c|);
  }

  /** A line that fits the buffer is taken as a whole. */
  lemma LineStep(c: string, rest: string, st: LoadState)
    requires '\n' !in c && 1 <= |c| <= 1022 && st.kept == ""
    ensures var next := TakeLine(TrimEnd(c + "\n"), st);
      Proper(next) && LoadFrom(c + "\n" + rest, st) == LoadFrom(rest, next)
  {
    hide TakeLine, TrimEnd, FgetsLength;
    var t, line := c + "\n" + rest, c + "\n";
    LineEnds(c, rest, ASCIILINESZ);
    var a := Advanced(t, st);
    assert "" + t[..|c| + 1] == line && t[|c| + 1..] == rest;
    assert line[|line| - 1] == '\n';
  }

  lemma BlankLine(rest: string, st: LoadState)
    requires st.kept == ""
    ensures LoadFrom("\n" + rest, st) == LoadFrom(rest, st)
  {
    hide TakeLine, TrimEnd, FgetsLength;
    LineEnds("", rest, ASCIILINESZ);
    var t := "\n" + rest;
    assert "" + "\n" + rest == t && t[1..] == rest && |"" + t[..1]| == 1;
  }

  lemma LowerWhole(s: string, len: nat)
    requires |s| < len
    ensures Strlwc(s, len) == Lower(s)
  {}

  lemma SectionParsed(s: string, section: string)
    requires HeaderName(s)
    ensures TrimEnd("[" + s + "]" + "\n") == "[" + s + "]"
    ensures ParseLine("[" + s + "]", section) == Line(LineSection, Lower(s), "", "")
  {
    var line := "[" + s + "]";
    TrimEndBlanks(line, "\n");
    assert line + "" == line;
    StripBlanks(line, "");
    var rest := line[1..];
    forall i | 0 <= i < |s|
      ensures NotBracket(rest[i])
    {
      assert rest[i] == s[i] && s[i] in s;
    }
    SpanIs(rest, NotBracket, |s|);
    assert line[1..1 + |s|] == s;
    assert s + "" == s;
    StripBlanks(s, "");
    LowerWhole(s, |line|);
  }

  /** A header opens its section under the lower-case name. */
  lemma HeaderLoads(s: string, rest: string, st: LoadState)
    requires HeaderName(s) && st.kept == ""
    ensures LoadFrom("[" + s + "]\n" + rest, st)
         == LoadFrom(rest, st.(section := Lower(s), store := st.store[Lower(s) := None]))
  {
    hide LoadFrom, ParseLine, TrimEnd, HeaderName, Lower;
    var line := "[" + s + "]";
    assert "[" + s + "]\n" + rest == line + "\n" + rest;
    assert '\n' !in line && 1 <= |line| <= 1022 by { SectionLineFits(s); }
    LineStep(line, rest, st);
    SectionParsed(s, st.section);
  }

  lemma SectionStep(s: string, rest: string, st: LoadState)
    requires CleanSection(s) && st.kept == ""
    ensures LoadFrom("[" + s + "]\n" + rest, st) == LoadFrom(rest, st.(section := s, store := st.store[s := None]))
  {
    hide LoadFrom, HeaderName;
    HeaderLoads(s, rest, st);
  }

  lemma SectionLineFits(s: string)
    requires HeaderName(s)
    ensures '\n' !in "[" + s + "]" && 1 <= |"[" + s + "]"| <= 1022
  {}

  /** The line of a key, without blanks at its end. */
  function KeyText(k: string, v: string, w: nat): string { Padded(k, w) + " =" + if v == "" then "" else " " + v }

  predicate NoBlankEnd(v: string) { v != "" ==> !IsSpace(v[|v| - 1]) }

  lemma PaddedName(k: string, w: nat)
    requires KeyName(k)
    ensures '=' !in Padded(k, w) + " " && Padded(k, w) != "" && Padded(k, w)[0] == k[0]
  {}

  lemma SpanAfter(key: string, behind: string)
    requires '=' !in key
    ensures Span(key + ("=" + behind), NotEquals) == |key|
  {
    var t := key + ("=" + behind);
    forall i | 0 <= i < |key|
      ensures NotEquals(t[i])
    {
      assert t[i] == key[i] && key[i] in key;
    }
    SpanIs(t, NotEquals, |key|);
  }

  lemma KeyScanned(k: string, v: string, w: nat)
    requires KeyName(k)
    ensures ScanKey(KeyText(k, v, w)) == Some((Padded(k, w) + " ", TrimStart(v)))
  {
    var t, key := KeyText(k, v, w), Padded(k, w) + " ";
    var r := |key|;
    PaddedName(k, w);
    hide Padded;
    var behind := if v == "" then "" else " " + v;
    assert t == key + ("=" + behind);
    hide KeyText;
    SpanAfter(key, behind);
    SpanIs(t[r..], IsSpace, 0);
    assert t[r + 1..] == behind && t[..r] == key;
    if v != "" { BlankBefore(v); }
  }

  lemma BlankBefore(v: string)
    ensures TrimStart(" " + v) == TrimStart(v)
  {
    var n := Span(v, IsSpace);
    SpanIs(" " + v, IsSpace, n + 1);
    assert (" " + v)[n + 1..] == v[n..];
  }

  lemma NothingLeft(v: string)
    requires NoBlankEnd(v)
    ensures TrimStart(v) == "" <==> v == ""
  {}

  lemma ParsedFrom(line: string, section: string, key: string, s: string)
    requires line != "" && ScanKey(line) == Some((key, s)) && s != ""
    ensures ParseValue(line, section) == KeyAndValue(section, |line|, key, LoadedText(s))
  {
    hide ScanKey, Stripped, Unquoted, KeyAndValue, Span, ScanBare;
    if Span(s, NotRemark) == 0 {
      assert IsRemark(s[0]);
      assert Span(s, IsRemark) > 0;
      assert Stripped("") == "" && Unquoted("") == "" by { NothingStripped(); }
    }
  }

  lemma NothingStripped()
    ensures Stripped("") == "" && Unquoted("") == ""
  {}

  lemma KeyParsed(k: string, v: string, w: nat, section: string)
    requires KeyName(k) && NoBlankEnd(v)
    ensures ParseValue(KeyText(k, v, w), section) == Line(LineValue, section, Lower(k), LoadedText(TrimStart(v)))
  {
    var t := KeyText(k, v, w);
    KeyScanned(k, v, w);
    KeyStripped(k, w);
    LowerWhole(k, |t|);
    NothingLeft(v);
    hide Padded, ScanKey, Stripped, TrimStart, LoadedText, ParseValue;
    if v == "" {
      BareParsed(k, w, section);
    } else {
      ParsedFrom(t, section, Padded(k, w) + " ", TrimStart(v));
    }
  }

  lemma BareParsed(k: string, w: nat, section: string)
    requires KeyName(k)
    ensures var t := KeyText(k, "", w);
      ParseValue(t, section) == KeyAndValue(section, |t|, Padded(k, w) + " ", "")
    ensures LoadedText(TrimStart("")) == ""
  {
    KeyScanned(k, "", w);
    BareScanned(k, w);
    hide Padded, ScanKey, ScanBare, Strlwc, Stripped;
  }

  lemma KeyStripped(k: string, w: nat)
    requires KeyName(k)
    ensures Stripped(Padded(k, w) + " ") == k && |k| <= |Padded(k, w)|
  {
    var blanks := Spaces(if |k| < w then w - |k| else 0) + " ";
    assert Padded(k, w) + " " == k + blanks;
    StripBlanks(k, blanks);
  }

  lemma BareScanned(k: string, w: nat)
    requires KeyName(k)
    ensures ScanBare(KeyText(k, "", w)) == Some((Padded(k, w) + " ", "="))
  {
    var t, key := KeyText(k, "", w), Padded(k, w) + " ";
    PaddedName(k, w);
    hide Padded, ScanBare;
    assert t == key + ("=" + "") == key + "=";
    hide KeyText;
    SpanAfter(key, "");
    BareIs(key);
  }

  lemma BareIs(key: string)
    requires key != "" && Span(key + "=", NotEquals) == |key|
    ensures ScanBare(key + "=") == Some((key, "="))
  {
    BareParts(key, key + "=");
    EqualsAlone();
    BareFrom(key + "=", key, "=");
  }

  lemma BareParts(key: string, t: string)
    requires t == key + "="
    ensures t[|key|..] == "=" && t[..|key|] == key && t[|key|..|key| + 1] == "="
  {}

  lemma EqualsAlone()
    ensures Span("=", IsSpace) == 0 && Span("=", IsEquals) == 1
  {
    SpanIs("=", IsSpace, 0);
    SpanIs("=", IsEquals, 1);
  }

  lemma BareFrom(t: string, key: string, equals: string)
    requires key != "" && Span(t, NotEquals) == |key| < |t| && t[|key|..] == equals && t[..|key|] == key
    requires Span(equals, IsSpace) == 0 && Span(equals, IsEquals) == 1 && t[|key|..|key| + 1] == equals
    ensures ScanBare(t) == Some((key, equals))
  {
    hide Span;
    assert t[|key| + Span(t[|key|..], IsSpace)..] == equals;
  }

  lemma Regroup(p: string, b: string, e: string, tail: string, end: string)
    ensures p + b + (e + tail) + end == p + (b + e) + (tail + end)
    ensures e == "" ==> p + b + (e + tail) + end == p + (b + (tail + end))
  {}

  lemma TrimJoined(p: string, e: string, tail: string)
    requires p != "" && !IsSpace(p[|p| - 1]) && NoBlankEnd(e) && forall c :: c in tail ==> IsSpace(c)
    ensures TrimEnd(p + " " + (e + tail) + "\n") == p + if e == "" then "" else " " + e
  {
    hide TrimEnd;
    var blanks := tail + "\n";
    assert forall c :: c in blanks ==> IsSpace(c);
    Regroup(p, " ", e, tail, "\n");
    if e == "" {
      assert forall c :: c in " " + blanks ==> IsSpace(c);
      TrimEndBlanks(p, " " + blanks);
      assert p + "" == p;
    } else {
      var t := p + (" " + e);
      assert t[|t| - 1] == e[|e| - 1];
      TrimEndBlanks(t, blanks);
    }
  }

  /** Trimming a line whose first part ends in no blank. */
  lemma TrimmedLine(p: string, v: string)
    requires p != "" && !IsSpace(p[|p| - 1])
    ensures TrimEnd(p + " " + v + "\n") == p + if TrimEnd(v) == "" then "" else " " + TrimEnd(v)
  {
    TrimEndSplit(v);
    var e := TrimEnd(v);
    var tail := v[|e|..];
    assert v == e + tail;
    hide TrimEnd;
    TrimJoined(p, e, tail);
  }

  lemma KeyTextShape(k: string, e: string, w: nat)
    requires KeyName(k) && NoBlankEnd(e)
    ensures var t := KeyText(k, e, w);
      NoOuterBlanks(t) && t[0] == k[0] && t[|t| - 1] == if e == "" then '=' else e[|e| - 1]
  {
    PaddedName(k, w);
    hide Padded;
  }

  lemma SameStart(p: string, v: string)
    ensures p + " = " + v + "\n" == p + " =" + " " + v + "\n"
  {
    assert " = " == " =" + " ";
    assert p + (" =" + " ") == p + " =" + " ";
  }

  lemma KeyTextEnds(k: string, v: string, w: nat)
    requires KeyName(k)
    ensures var t := KeyText(k, TrimEnd(v), w);
      TrimEnd(Padded(k, w) + " = " + v + "\n") == t
      && NoOuterBlanks(t) && t[0] == k[0]
      && t[|t| - 1] == if TrimEnd(v) == "" then '=' else TrimEnd(v)[|TrimEnd(v)| - 1]
  {
    TrimEndSplit(v);
    KeyTextShape(k, TrimEnd(v), w);
    hide Padded, TrimEnd;
    TrimmedLine(Padded(k, w) + " =", v);
    SameStart(Padded(k, w), v);
  }

  lemma KeyLineParsed(k: string, v: string, w: nat, section: string)
    requires KeyName(k) && !(k[0] == '[' && EndsWith(v, ']'))
    ensures ParseLine(KeyText(k, TrimEnd(v), w), section) == Line(LineValue, section, Lower(k), LoadedValue(v))
  {
    hide ParseValue, TrimEnd, LoadedText;
    var t := KeyText(k, TrimEnd(v), w);
    KeyTextEnds(k, v, w);
    TrimEndSplit(v);
    KeyParsed(k, TrimEnd(v), w, section);
    assert t + "" == t;
    hide KeyText;
    StripBlanks(t, "");
  }

  /** A key line adds its key, in lower case, with what is read from its value text. */
  lemma KeyLoads(k: string, v: string, w: nat, rest: string, st: LoadState)
    requires KeyName(k) && '\n' !in v && |Padded(k, w)| + 3 + |v| <= 1022 && st.kept == ""
    requires !EndsWith(v, '\\') && !(k[0] == '[' && EndsWith(v, ']'))
    ensures LoadFrom(Padded(k, w) + " = " + v + "\n" + rest, st)
         == LoadFrom(rest, st.(store := st.store[st.section + ":" + Lower(k) := Some(LoadedValue(v))]))
  {
    hide LoadFrom, ParseLine, TrimEnd, KeyText, LoadedValue, Lower;
    var c := Padded(k, w) + " = " + v;
    KeyContentFits(k, v, w);
    LineStep(c, rest, st);
    KeyTextEnds(k, v, w);
    KeyLineParsed(k, v, w, st.section);
  }

  /** A printed key line adds that key with what is read from its value text. */
  lemma KeyStep(k: string, v: string, w: nat, rest: string, st: LoadState)
    requires CleanLine(k, v, w) && st.kept == ""
    ensures LoadFrom(Padded(k, w) + " = " + v + "\n" + rest, st)
         == LoadFrom(rest, st.(store := st.store[st.section + ":" + k := Some(LoadedValue(v))]))
  {
    hide LoadFrom, LoadedValue, Padded, EndsWith, KeyName;
    KeyLoads(k, v, w, rest, st);
  }

  lemma KeyContentFits(k: string, v: string, w: nat)
    requires KeyName(k) && '\n' !in v && |Padded(k, w)| + 3 + |v| <= 1022
    ensures '\n' !in Padded(k, w) + " = " + v && 1 <= |Padded(k, w) + " = " + v| <= 1022
  {}

  /** A line that is continued or looks like a header adds no such key. */
  lemma LineGoesElsewhere(k: string, v: string, w: nat)
    requires CleanName(k) && '\n' !in v && |Padded(k, w)| + 3 + |v| <= 1022
    requires EndsWith(v, '\\') || (k[0] == '[' && EndsWith(v, ']'))
    ensures LoadFile(Padded(k, w) + " = " + v + "\n") != Some(map[":" + k := Some(v)])
  {
    hide LoadFrom, TrimEnd, ParseValue, ScanSection;
    var c, t := Padded(k, w) + " = " + v, KeyText(k, TrimEnd(v), w);
    KeyContentFits(k, v, w);
    LineStep(c, "", START);
    assert c + "\n" + "" == c + "\n";
    KeyTextEnds(k, v, w);
    var next := TakeLine(t, START);
    assert LoadFrom("", next) == if next.failed then None else Some(next.store) by { NothingToLoad(next); }
    NotThere("", ":" + k, v);
    if EndsWith(v, '\\') {
      assert next.store == map[];
    } else {
      assert t + "" == t;
      StripBlanks(t, "");
      hide KeyText;
      var line := ParseLine(t, "");
      assert line.status == LineSection;
      assert next.store == map[line.section := None];
      NotThere(line.section, ":" + k, v);
    }
  }

  lemma NothingToLoad(st: LoadState)
    requires Proper(st)
    ensures LoadFrom("", st) == if st.failed then None else Some(st.store)
  {}

  lemma NotThere(s: string, k: string, v: string)
    ensures map[s := None] != map[k := Some(v)] && map[k := Some(v)] != map[]
  {
    var a: Store, b: Store := map[s := None], map[k := Some(v)];
    assert k in b && b[k] == Some(v);
    assert k in a ==> a[k] == None;
  }

  /** A printed key line gives its key and value back exactly when the value is read as it is, the line is not
      continued, and it does not look like a section header. */
  lemma LineLoadsBack(k: string, v: string, w: nat)
    requires CleanName(k) && '\n' !in v && |Padded(k, w)| + 3 + |v| <= 1022
    ensures LoadFile(Padded(k, w) + " = " + v + "\n") == Some(map[":" + k := Some(v)])
       <==> Survives(v) && !EndsWith(v, '\\') && !(k[0] == '[' && EndsWith(v, ']'))
  {
    hide LoadFrom, Survives, LoadedValue, EndsWith, Padded;
    if EndsWith(v, '\\') || (k[0] == '[' && EndsWith(v, ']')) {
      LineGoesElsewhere(k, v, w);
    } else {
      var line := Padded(k, w) + " = " + v + "\n";
      ValueSurvives(v);
      KeyStep(k, v, w, "", START);
      assert line + "" == line;
      var got: Store, want: Store := map[":" + k := Some(LoadedValue(v))], map[":" + k := Some(v)];
      assert "" + ":" + k == ":" + k;
      assert START.store[":" + k := Some(LoadedValue(v))] == got;
      NothingToLoad(START.(store := got));
      assert got[":" + k] == want[":" + k] <==> LoadedValue(v) == v;
    }
  }
}
