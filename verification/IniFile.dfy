/** INI files in characters: comments, headers, keys, continued lines and line ends as the loader takes
    them, for any text around them. */
module IniFile {
  import opened Spans
  import opened Wrappers
  import opened IniText
  import opened IniLoad
  import opened IniDump
  import opened IniLine

  // ---------- Characters ----------

  const BLANKS := " \t\n\U{0b}\U{0c}\r"
  const UPPER_CASE := "ABCDEFGHIJKLMNOPQRSTUVWXYZ"
  const LOWER_CASE := "abcdefghijklmnopqrstuvwxyz"

  lemma BlankCharacters(c: char)
    ensures IsSpace(c) <==> c in BLANKS
  {}

  lemma LettersAreLowered(i: nat)
    requires i < 26
    ensures ToLower(UPPER_CASE[i]) == LOWER_CASE[i]
  {
    assert i == 0 || i == 1 || i == 2 || i == 3 || i == 4 || i == 5 || i == 6 || i == 7 || i == 8 || i == 9
        || i == 10 || i == 11 || i == 12 || i == 13 || i == 14 || i == 15 || i == 16 || i == 17 || i == 18 || i == 19
        || i == 20 || i == 21 || i == 22 || i == 23 || i == 24 || i == 25;
  }

  lemma OthersAreKept(c: char)
    ensures c in UPPER_CASE || ToLower(c) == c
  {}

  predicate AllBlank(s: string) { forall c :: c in s ==> c in BLANKS }

  // ---------- Comments ----------

  /** The last character but blanks is a backslash: the line is continued. */
  predicate IsOpen(line: string) { exists i :: 0 <= i < |line| && line[i] == '\\' && AllBlank(line[i + 1..]) }

  /** A line whose first character but blanks is '#' or ';' changes nothing, whatever it says, unless it is
      continued. */
  lemma CommentIsSkipped(blanks: string, mark: char, text: string, rest: string, st: LoadState)
    requires AllBlank(blanks) && (mark == '#' || mark == ';') && !IsOpen(text)
    requires '\n' !in blanks + [mark] + text && |blanks + [mark] + text| <= 1022
    requires st.kept == ""
    ensures LoadFrom(blanks + [mark] + text + "\n" + rest, st) == LoadFrom(rest, st)
  {
    hide LoadFrom, TrimEnd, ParseLine, Span, IsOpen, AllBlank;
    var line := blanks + [mark] + text;
    LineStep(line, rest, st);
    Ending(text);
    var n := |TrimEnd(text)|;
    var body := blanks + [mark] + text[..n];
    assert line == body + text[n..];
    LineIsTrimmed(body, text[n..]);
    CommentLine(blanks, mark, text[..n], st.section);
    assert st.(kept := "") == st;
  }

  /** A line that is not continued: what its blanks at the end leave does not end in a backslash. */
  lemma Ending(text: string)
    ensures var n := |TrimEnd(text)|;
      && n <= |text| && text[..n] == TrimEnd(text) && AllBlank(text[n..])
      && (n > 0 ==> !IsSpace(text[n - 1]) && (text[n - 1] == '\\' ==> IsOpen(text)))
  {
    TrimEndSplit(text);
    var n := |TrimEnd(text)|;
    hide TrimEnd;
    if n > 0 && text[n - 1] == '\\' {
      assert text[n - 1 + 1..] == text[n..] && AllBlank(text[n - 1 + 1..]);
    }
  }

  lemma LineIsTrimmed(body: string, tail: string)
    requires body != "" && !IsSpace(body[|body| - 1]) && AllBlank(tail)
    ensures TrimEnd(body + tail + "\n") == body
  {
    hide TrimEnd;
    assert body + tail + "\n" == body + (tail + "\n");
    TrimEndBlanks(body, tail + "\n");
  }

  lemma CommentLine(blanks: string, mark: char, text: string, section: string)
    requires AllBlank(blanks) && (mark == '#' || mark == ';')
    ensures ParseLine(blanks + [mark] + text, section).status == LineComment
    ensures ParseLine(blanks + [mark] + text, section).section == section
  {
    StripStart(blanks, mark, text);
    hide Stripped;
  }

  lemma StripStart(blanks: string, c: char, text: string)
    requires AllBlank(blanks) && !IsSpace(c)
    ensures var s := Stripped(blanks + [c] + text); s != "" && s[0] == c
  {
    var t := blanks + [c] + text;
    forall i | 0 <= i < |blanks|
      ensures IsSpace(t[i])
    {
      assert t[i] == blanks[i] && blanks[i] in blanks;
    }
    SpanIs(t, IsSpace, |blanks|);
    assert TrimStart(t) == [c] + text;
    TrimEndSplit([c] + text);
    assert ([c] + text)[0..] == [c] + text && c in [c] + text;
  }

  // ---------- Lines ----------

  /** A line that ends in a backslash goes on in the next one; the blanks behind the backslash are dropped. */
  lemma ContinuedIsJoined(a: string, tail: string, b: string, rest: string, st: LoadState)
    requires AllBlank(tail) && '\n' !in a + "\\" + tail && '\n' !in b
    requires |a + "\\" + tail| <= 1022 && |a + b| <= 1022 && st.kept == ""
    ensures LoadFrom(a + "\\" + tail + "\n" + (b + "\n" + rest), st) == LoadFrom(a + b + "\n" + rest, st)
  {
    hide LoadFrom, TrimEnd, ParseLine, Advanced, TakeLine;
    var first, kept := a + "\\" + tail, st.(kept := a);
    LineStep(first, b + "\n" + rest, st);
    LineIsTrimmed(a + "\\", tail);
    assert TakeLine(a + "\\", st) == kept by { TakeContinued(a, st); }
    SecondPart(a, b, rest, st);
  }

  lemma TakeContinued(a: string, st: LoadState)
    ensures TakeLine(a + "\\", st) == st.(kept := a)
  {
    assert (a + "\\")[..|a|] == a;
  }

  /** The rest of a line is read behind what is kept of it. */
  lemma SecondPart(a: string, b: string, rest: string, st: LoadState)
    requires '\n' !in a && '\n' !in b && |a + b| <= 1022 && st.kept == ""
    ensures LoadFrom(b + "\n" + rest, st.(kept := a)) == LoadFrom(a + b + "\n" + rest, st)
  {
    hide LoadFrom, FgetsLength;
    var t, u := b + "\n" + rest, a + b + "\n" + rest;
    if a == "" {
      assert t == u && st.(kept := a) == st;
      return;
    }
    LineEnds(b, rest, ASCIILINESZ - |a|);
    LineEnds(a + b, rest, ASCIILINESZ);
    assert a + t[..|b| + 1] == u[..|a + b| + 1] == "" + u[..|a + b| + 1];
    assert t[|b| + 1..] == rest == u[|a + b| + 1..] && t[|b|] == '\n';
    SameTurn(t, st.(kept := a), u, st, rest);
  }

  /** Two texts whose next lines come out the same. */
  lemma SameTurn(t: string, st: LoadState, u: string, su: LoadState, rest: string)
    requires t != "" && u != "" && Proper(st) && Proper(su) && st == su.(kept := st.kept)
    requires var n := FgetsLength(t, ASCIILINESZ - |st.kept|);
      var m := FgetsLength(u, ASCIILINESZ - |su.kept|);
      && st.kept + t[..n] == su.kept + u[..m] && t[n..] == u[m..] == rest && t[n - 1] == '\n'
      && |st.kept + t[..n]| > 1
    ensures LoadFrom(t, st) == LoadFrom(u, su)
  {
    hide TakeLine, TrimEnd, FgetsLength;
    var line := st.kept + t[..FgetsLength(t, ASCIILINESZ - |st.kept|)];
    assert line[|line| - 1] == '\n';
    TakesKept(TrimEnd(line), st, su);
  }

  lemma TakesKept(body: string, st: LoadState, su: LoadState)
    requires st == su.(kept := st.kept)
    ensures TakeLine(body, st) == TakeLine(body, su)
  {
    hide ParseLine;
  }

  /** 1023 characters without a newline are too long a line, whatever follows. */
  lemma LongLineFails(line: string, rest: string, st: LoadState)
    requires |line| == 1023 && '\n' !in line && st.kept == ""
    ensures LoadFrom(line + rest, st) == None
  {
    hide Span;
    var t := line + rest;
    forall i | 0 <= i < 1023
      ensures NotNewline(t[i])
    {
      assert t[i] == line[i] && line[i] in line;
    }
    assert Span(t, NotNewline) >= 1023;
    assert FgetsLength(t, ASCIILINESZ) == 1023 && t[..1023] == line;
    assert "" + line == line && line[1022] in line;
  }

  /** The last line needs no newline; a single character without one is ignored. */
  lemma LastLine(line: string, st: LoadState)
    requires 1 <= |line| <= 1022 && '\n' !in line && st.kept == ""
    ensures LoadFrom(line, st) == LoadFrom(if |line| == 1 then "" else line + "\n", st)
  {
    hide TakeLine, Span;
    forall i | 0 <= i < |line|
      ensures NotNewline(line[i])
    {
      assert line[i] in line;
    }
    assert Span(line, NotNewline) == |line|;
    assert FgetsLength(line, ASCIILINESZ) == |line| && line[..|line|] == line && line[|line|..] == "";
    assert "" + line == line;
    if |line| > 1 {
      hide LoadFrom;
      LineStep(line, "", st);
      assert line + "\n" + "" == line + "\n" && (line + "\n")[..|line|] == line;
      WholeLine(line, st);
    }
  }

  lemma WholeLine(line: string, st: LoadState)
    requires FgetsLength(line, ASCIILINESZ) == |line| && 1 < |line| <= 1022 && st.kept == ""
    ensures var next := TakeLine(TrimEnd(line), st); Proper(next) && LoadFrom(line, st) == LoadFrom("", next)
  {
    hide TakeLine, TrimEnd, FgetsLength;
    assert "" + line[..|line|] == line && line[|line|..] == "";
    var a := Advanced(line, st);
    assert a.Next? && a.rest == "";
  }

  // ---------- Names ----------

  /** A file of one section and one key, in whatever case: both names are entered in lower case. */
  lemma NamesAreLowered(s: string, k: string, v: string)
    requires HeaderName(s) && KeyName(k) && '\n' !in v && |k| + 3 + |v| <= 1022 && Survives(v)
    requires !IsOpen(v) && !(k[0] == '[' && EndsWith(v, ']'))
    ensures LoadFile("[" + s + "]\n" + (k + " = " + v + "\n"))
         == Some(map[Lower(s) := None, Lower(s) + ":" + Lower(k) := Some(v)])
  {
    hide LoadFrom, HeaderName, KeyName, Survives, LoadedValue, EndsWith, IsOpen, Lower;
    var line := k + " = " + v + "\n";
    HeaderLoads(s, line, START);
    var st := START.(section := Lower(s), store := map[Lower(s) := None]);
    assert START.(section := Lower(s), store := START.store[Lower(s) := None]) == st;
    ValueSurvives(v);
    NotOpen(v);
    assert Padded(k, 0) == k by { Unpadded(k); }
    KeyLoads(k, v, 0, "", st);
    assert line + "" == line;
    NothingToLoad(st.(store := st.store[Lower(s) + ":" + Lower(k) := Some(v)]));
  }

  lemma Unpadded(k: string)
    ensures Padded(k, 0) == k
  {}

  lemma NotOpen(v: string)
    ensures EndsWith(v, '\\') ==> IsOpen(v)
  {
    Ending(v);
  }

  /** Names that are set keep at most 1024 characters. */
  lemma LongNamesAreCut(s: string)
    ensures Strlwc(s, ASCIILINESZ + 1) == Lower(if |s| <= 1024 then s else s[..1024])
  {}

  // ---------- Lines in error ----------

  /** A line without an equals sign that is no comment and does not begin with a bracket is an error. */
  lemma NoEqualsIsError(blanks: string, c: char, text: string, rest: string, st: LoadState)
    requires AllBlank(blanks) && c !in BLANKS && c != '#' && c != ';' && c != '[' && c != '='
    requires '=' !in text && !IsOpen([c] + text)
    requires '\n' !in blanks + [c] + text && |blanks + [c] + text| <= 1022 && st.kept == ""
    ensures LoadFrom(blanks + [c] + text + "\n" + rest, st) == LoadFrom(rest, st.(failed := true))
  {
    hide LoadFrom, TrimEnd, ParseLine, Span, IsOpen, AllBlank;
    var line := blanks + [c] + text;
    LineStep(line, rest, st);
    var ink, tail := ErrorParts(blanks, c, text);
    LineIsTrimmed(blanks + [c] + ink, tail);
    ErrorLine(blanks, c, ink, st.section);
    assert st.(kept := "", failed := true) == st.(failed := true);
  }

  lemma ErrorParts(blanks: string, c: char, text: string) returns (ink: string, tail: string)
    requires !IsSpace(c) && '=' !in text && !IsOpen([c] + text) && c != '='
    ensures blanks + [c] + text == blanks + [c] + ink + tail && AllBlank(tail) && '=' !in ink
    ensures var body := blanks + [c] + ink; !IsSpace(body[|body| - 1]) && !IsSpace(([c] + ink)[|ink|])
    ensures var body := blanks + [c] + ink; body[|body| - 1] != '\\'
  {
    hide TrimEnd, IsOpen;
    var t := [c] + text;
    Ending(t);
    FirstStays(c, text);
    var n := |TrimEnd(t)|;
    ink, tail := text[..n - 1], text[n - 1..];
    assert t[n..] == tail && t[..n] == [c] + ink && ([c] + ink)[|ink|] == t[n - 1];
    assert blanks + [c] + ink == blanks + ([c] + ink);
    assert blanks + [c] + text == blanks + [c] + ink + tail;
  }

  lemma FirstStays(c: char, text: string)
    requires !IsSpace(c)
    ensures TrimEnd([c] + text) != ""
  {
    TrimEndSplit([c] + text);
    assert ([c] + text)[0..] == [c] + text && c in [c] + text;
  }

  lemma ErrorLine(blanks: string, c: char, text: string, section: string)
    requires AllBlank(blanks) && !IsSpace(c) && c != '#' && c != ';' && c != '[' && c != '=' && '=' !in text
    requires !IsSpace(([c] + text)[|text|])
    ensures ParseLine(blanks + [c] + text, section) == Line(LineError, section, "", "")
  {
    var t := [c] + text;
    assert blanks + [c] + text == blanks + t;
    StrippedStart(blanks, t);
    ErrorValue(t, section);
    hide Stripped, ParseValue, ScanSection;
  }

  lemma ErrorValue(t: string, section: string)
    requires t != "" && '=' !in t
    ensures ParseValue(t, section) == Line(LineError, section, "", "")
  {
    hide Stripped, ScanKey, ScanBare;
    NoKey(t);
  }

  lemma StrippedStart(blanks: string, t: string)
    requires AllBlank(blanks) && t != "" && !IsSpace(t[0]) && !IsSpace(t[|t| - 1])
    ensures Stripped(blanks + t) == t
  {
    forall i | 0 <= i < |blanks|
      ensures IsSpace((blanks + t)[i])
    {
      assert (blanks + t)[i] == blanks[i] && blanks[i] in blanks;
    }
    assert (blanks + t)[|blanks|] == t[0];
    SpanIs(blanks + t, IsSpace, |blanks|);
    assert TrimStart(blanks + t) == t;
    Untrimmed(t);
  }

  lemma NoKey(t: string)
    requires '=' !in t
    ensures ScanKey(t) == None && ScanBare(t) == None
  {
    forall i | 0 <= i < |t|
      ensures NotEquals(t[i])
    {
      assert t[i] in t;
    }
    SpanIs(t, NotEquals, |t|);
    assert t[|t|..] == "";
  }

  /** A file with an error is not loaded. */
  lemma {:induction false} ErrorsStay(text: string, st: LoadState)
    requires Proper(st) && st.failed
    ensures LoadFrom(text, st) == None
    decreases |text|
  {
    hide TakeLine, TrimEnd, FgetsLength, Proper;
    if text != "" {
      var a := Advanced(text, st);
      if a.Next? {
        TurnKeepsError(text, st);
        ErrorsStay(a.rest, a.state);
      }
    }
  }

  lemma TurnKeepsError(text: string, st: LoadState)
    requires Proper(st) && st.failed && text != "" && Advanced(text, st).Next?
    ensures Advanced(text, st).state.failed
  {
    hide TrimEnd, FgetsLength, ParseLine;
  }

  // ---------- What a dump looks like ----------

  /** One section with one key: an empty line, the header, the key thirty characters wide, the value behind an
      equals sign, and an empty line behind the section and behind all sections. */
  lemma DumpOfOne(s: string, k: string, v: string, blanks: string)
    requires ':' !in s && Lower(s) == s && |s| <= 1024 && |k| + |blanks| == 30 && forall c :: c in blanks ==> c == ' '
    ensures DumpText([Entry(s, None), Entry(s + ":" + k, Some(v))])
         == "\n[" + s + "]\n" + (k + blanks + " = " + v + "\n") + "\n" + "\n"
  {
    var e, f := Entry(s, None), Entry(s + ":" + k, Some(v));
    assert (s + ":" + k)[|s|] == ':' && ':' in s + ":" + k;
    LowerWhole(s, ASCIILINESZ + 1);
    OneSection(e, f);
    OneSectionText(s, k, v, blanks);
    hide SectionText, SectionTexts, SectionNames;
    OnlyText([e, f], s);
  }

  lemma OneSection(e: Entry, f: Entry)
    requires IsSection(e.key) && !IsSection(f.key)
    ensures SectionNames([e, f]) == [e.key] && e.key in EntryMap([e, f])
  {
    hide IsSection;
    assert [e, f][..1] == [e] && [e][..0] == [];
    assert SectionNames([]) == [] && SectionNames([e]) == [e.key];
    assert EntryMap([]) == map[] && EntryMap([e]) == map[e.key := e.val];
  }

  lemma OnlyText(es: seq<Entry>, s: string)
    requires Found(EntryMap(es), s)
    ensures SectionTexts(es, [s]) == SectionText(es, s)
  {
    hide SectionText, Found, EntryMap;
    assert [s][..0] == [] && SectionTexts(es, []) == "";
    assert "" + SectionText(es, s) == SectionText(es, s);
  }

  lemma OneSectionText(s: string, k: string, v: string, blanks: string)
    requires ':' !in s && |k| + |blanks| == 30 && forall c :: c in blanks ==> c == ' '
    ensures SectionText([Entry(s, None), Entry(s + ":" + k, Some(v))], s)
         == "\n[" + s + "]\n" + (k + blanks + " = " + v + "\n") + "\n"
  {
    var e, f := Entry(s, None), Entry(s + ":" + k, Some(v));
    var es := [e, f];
    assert es[..1] == [e] && [e][..0] == [];
    assert InSection(s, f.key) && f.key[|s| + 1..] == k;
    assert !InSection(s, s);
    assert KeyLines([], s) == "" && KeyLines([e], s) == "";
    assert Spaces(30 - |k|) == blanks by {
      forall i | 0 <= i < |blanks|
        ensures Spaces(|blanks|)[i] == blanks[i]
      {
        assert Spaces(|blanks|)[i] in Spaces(|blanks|) && blanks[i] in blanks;
      }
    }
    KeyLineIs(s, f);
    assert KeyLines(es, s) == KeyLine(s, f);
  }
}
