/** Loading an INI file: the line loop over a file given as its text, and the store it fills. */
module IniLoad {
  import opened Spans
  import opened Wrappers
  import opened Dictionary
  import opened IniText

  type Store = map<string, Option<string>>

  // ---------- What loading gives ----------

  /** The kept part of a continued line, the current section, the store so far, and whether a line was
      in error. */
  datatype LoadState = LoadState(kept: string, section: string, store: Store, failed: bool)

  const START := LoadState("", "", map[], false)

  predicate Proper(st: LoadState) { |st.kept| + 2 <= ASCIILINESZ }

  predicate NotNewline(c: char) { c != '\n' }

  /** How much `fgets` takes into a buffer of `room` characters. */
  function FgetsLength(text: string, room: nat): (n: nat)
    requires room >= 2
    ensures n <= |text| && n < room && (text != [] ==> n > 0)
  {
    var e := Span(text, NotNewline);
    var whole := if e < |text| then e + 1 else e;
    if whole < room then whole else room - 1
  }

  /** The entry of a parsed line. */
  function Enter(line: Line, st: LoadState): LoadState {
    match line.status
    case LineSection => LoadState("", line.section, st.store[line.section := None], st.failed)
    case LineValue => LoadState("", st.section, st.store[st.section + ":" + line.key := Some(line.value)], st.failed)
    case LineError => LoadState("", st.section, st.store, true)
    case _ => LoadState("", st.section, st.store, st.failed)
  }

  predicate IsContinued(body: string) { body != "" && body[|body| - 1] == '\\' }

  function TakeLine(body: string, st: LoadState): LoadState {
    if IsContinued(body) then st.(kept := body[..|body| - 1]) else Enter(ParseLine(body, st.section), st)
  }

  datatype Advance = TooLong | Next(rest: string, state: LoadState)

  lemma {:induction false} TrimEndSize(s: string)
    ensures |TrimEnd(s)| <= |s|
  {
    if s != [] && IsSpace(s[|s| - 1]) { TrimEndSize(s[..|s| - 1]); }
  }

  /** One turn of the line loop. */
  function Advanced(text: string, st: LoadState): (a: Advance)
    requires text != "" && Proper(st)
    ensures a.Next? ==> |a.rest| < |text| && Proper(a.state)
  {
    var room := ASCIILINESZ - |st.kept|;
    var n := FgetsLength(text, room);
    var line, rest := st.kept + text[..n], text[n..];
    if |line| <= 1 then Next(rest, st)
    else if line[|line| - 1] != '\n' && n == room - 1 then TooLong
    else
      TrimEndSize(line);
      Next(rest, TakeLine(TrimEnd(line), st))
  }

  function LoadFrom(text: string, st: LoadState): Option<Store>
    requires Proper(st)
    decreases |text|
  {
    if text == "" then if st.failed then None else Some(st.store)
    else
      var a := Advanced(text, st);
      if a.TooLong? then None else LoadFrom(a.rest, a.state)
  }

  /** The store a file stands for; nothing when a line is in error or too long. */
  function LoadFile(text: string): Option<Store> { LoadFrom(text, START) }

  // ---------- The loop ----------

  /** Takes the newline and the blanks off the end of a line. */
  method TrimBlanks(line: string) returns (body: string)
    ensures body == TrimEnd(line)
  {
    body := line;
    while body != "" && IsSpace(body[|body| - 1])
      invariant TrimEnd(body) == TrimEnd(line)
      decreases |body|
    {
      body := body[..|body| - 1];
    }
  }

  method EnterLine(d: Dictionary, body: string, section: Buffer, key: Buffer, value: Buffer, ghost st: LoadState)
    returns (failed: bool)
    requires d.Valid() && section != key && section != value && key != value
    requires st.section == section.text && st.store == d.Contents() && !IsContinued(body)
    modifies section, key, value, d, d.Arrays()
    ensures d.Valid() && fresh(d.Arrays() - old(d.Arrays()))
    ensures LoadState("", section.text, d.Contents(), st.failed || failed) == TakeLine(body, st)
  {
    hide ParseLine;
    failed := false;
    SectionKept(body, section.text);
    var sta := IniparserLine(body, section, key, value);
    match sta {
      case LineSection => d.Set(section.text, None);
      case LineValue => d.Set(section.text + ":" + key.text, Some(value.text));
      case LineError => failed := true;
      case _ =>
    }
  }

  lemma SectionKept(body: string, section: string)
    ensures var line := ParseLine(body, section); line.status != LineSection ==> line.section == section
  {
    hide Stripped, Strlwc, ScanQuoted, ScanValue, ScanBare, ScanSection, Unquoted;
  }

  /** What one turn of the loop makes of the text from pos on. */
  lemma LoadNext(text: string, pos: nat, st: LoadState)
    requires pos < |text| && Proper(st)
    ensures var room := ASCIILINESZ - |st.kept|;
      var n := FgetsLength(text[pos..], room);
      var line, next := st.kept + text[pos..][..n], TakeLine(TrimEnd(st.kept + text[pos..][..n]), st);
      if |line| <= 1 then LoadFrom(text[pos..], st) == LoadFrom(text[pos + n..], st)
      else if line[|line| - 1] != '\n' && n == room - 1 then LoadFrom(text[pos..], st) == None
      else Proper(next) && LoadFrom(text[pos..], st) == LoadFrom(text[pos + n..], next)
  {
    hide FgetsLength, TakeLine, TrimEnd;
    var n := FgetsLength(text[pos..], ASCIILINESZ - |st.kept|);
    var a := Advanced(text[pos..], st);
    assert a.Next? ==> a.rest == text[pos + n..] && Proper(a.state);
  }

  lemma LoadEnd(st: LoadState)
    requires Proper(st)
    ensures LoadFrom("", st) == if st.failed then None else Some(st.store)
  {}

  /** Ends a line: keeps it when it is continued, enters it otherwise. */
  method EndLine(d: Dictionary, line: string, section: Buffer, key: Buffer, value: Buffer, ghost st: LoadState)
    returns (kept: string, failed: bool)
    requires d.Valid() && section != key && section != value && key != value
    requires st.section == section.text && st.store == d.Contents()
    modifies section, key, value, d, d.Arrays()
    ensures d.Valid() && fresh(d.Arrays() - old(d.Arrays()))
    ensures LoadState(kept, section.text, d.Contents(), st.failed || failed) == TakeLine(TrimEnd(line), st)
  {
    hide Enter, ParseLine;
    var body := TrimBlanks(line);
    if IsContinued(body) {
      kept, failed := body[..|body| - 1], false;
    } else {
      kept := "";
      failed := EnterLine(d, body, section, key, value, st);
    }
  }

  /** One turn of the line loop: `fgets`, the checks on the line, and its entry. */
  method LoadTurn(d: Dictionary, text: string, pos: nat, kept: string, errs: bool,
                  section: Buffer, key: Buffer, value: Buffer, ghost st: LoadState)
    returns (tooLong: bool, next: nat, nowKept: string, nowErrs: bool, ghost now: LoadState)
    requires d.Valid() && section != key && section != value && key != value
    requires pos < |text| && Proper(st) && st == LoadState(kept, section.text, d.Contents(), errs)
    modifies section, key, value, d, d.Arrays()
    ensures d.Valid() && fresh(d.Arrays() - old(d.Arrays()))
    ensures tooLong ==> LoadFrom(text[pos..], st) == None
    ensures !tooLong ==> pos < next <= |text| && Proper(now)
    ensures !tooLong ==> now == LoadState(nowKept, section.text, d.Contents(), nowErrs)
    ensures !tooLong ==> LoadFrom(text[pos..], st) == LoadFrom(text[next..], now)
  {
    hide TakeLine, LoadFrom, FgetsLength, TrimEnd, Advanced, d.Valid, d.Contents, d.Arrays;
    var room := ASCIILINESZ - |kept|;
    var n := FgetsLength(text[pos..], room);
    var line := kept + text[pos..][..n];
    LoadNext(text, pos, st);
    tooLong, next, nowKept, nowErrs, now := false, pos + n, kept, errs, st;
    if |line| <= 1 { return; }
    if line[|line| - 1] != '\n' && n == room - 1 {
      tooLong := true;
      return;
    }
    var failed;
    nowKept, failed := EndLine(d, line, section, key, value, st);
    nowErrs := errs || failed;
    now := TakeLine(TrimEnd(line), st);
  }

  /** The line loop over the whole text; `ok` says that no line was in error or too long. */
  method LoadLines(d: Dictionary, text: string, section: Buffer, key: Buffer, value: Buffer) returns (ok: bool)
    requires d.Valid() && section != key && section != value && key != value
    requires section.text == "" && d.Contents() == map[]
    modifies section, key, value, d, d.Arrays()
    ensures d.Valid() && fresh(d.Arrays() - old(d.Arrays()))
    ensures LoadFile(text) == if ok then Some(d.Contents()) else None
  {
    hide LoadFrom, d.Valid, d.Contents;
    var kept, pos, errs := "", 0, false;
    ghost var st, want := START, LoadFile(text);
    assert text[0..] == text;
    while pos < |text|
      invariant 0 <= pos <= |text| && Proper(st) && want == LoadFrom(text[pos..], st)
      invariant d.Valid() && st == LoadState(kept, section.text, d.Contents(), errs)
      invariant fresh(d.Arrays() - old(d.Arrays()))
    {
      var tooLong, next, nowKept, nowErrs;
      ghost var now;
      tooLong, next, nowKept, nowErrs, now := LoadTurn(d, text, pos, kept, errs, section, key, value, st);
      if tooLong { return false; }
      pos, kept, errs, st := next, nowKept, nowErrs, now;
    }
    LoadEnd(st);
    assert text[pos..] == "";
    ok := !errs;
  }

  /** Loads a file; null means that a line was in error or too long. */
  method IniparserLoad(text: string) returns (dict: Dictionary?)
    ensures dict == null <==> LoadFile(text) == None
    ensures dict != null ==> fresh(dict) && fresh(dict.Arrays()) && dict.Valid()
    ensures dict != null ==> dict.Contents() == LoadFile(text).value
  {
    var d := new Dictionary(0);
    var section := new Buffer("");
    var key := new Buffer("");
    var value := new Buffer("");
    hide LoadFile, d.Valid, d.Contents, d.Arrays;
    ghost var before := d.Arrays();
    var ok := LoadLines(d, text, section, key, value);
    assert forall o :: o in d.Arrays() ==> o in before || o in d.Arrays() - before;
    dict := if ok then d else null;
  }
}
