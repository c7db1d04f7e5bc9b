/** Dumping a store and loading the file gives the store back. */
module IniRoundTrip {
  import opened Spans
  import opened Wrappers
  import opened IniText
  import opened IniLoad
  import opened IniDump
  import opened IniLine

  /** The name of the section a key lies in: what precedes its first colon. */
  function SectionOf(k: string): string { k[..Span(k, NotColon)] }

  lemma SectionOfIs(s: string, k: string)
    requires IsSection(s)
    ensures InSection(s, k) <==> (!IsSection(k) && SectionOf(k) == s)
  {
    var n := Span(k, NotColon);
    if InSection(s, k) {
      assert k[..|s| + 1] == s + ":" && k[|s|] == ':';
      forall i | 0 <= i < |s|
        ensures NotColon(k[i])
      {
        assert k[i] == s[i] && s[i] in s;
      }
      SpanIs(k, NotColon, |s|);
      assert k[..|s|] == s;
    }
    if !IsSection(k) && SectionOf(k) == s {
      var i :| 0 <= i < |k| && k[i] == ':';
      assert !NotColon(k[i]) && n <= i;
      assert k[..n + 1] == s + ":";
    }
  }

  ghost predicate HasSections(m: Store) { exists k :: k in m && IsSection(k) }

  /** Every key has an entry for its section. */
  ghost predicate SectionsPresent(m: Store) { forall k :: k in m && !IsSection(k) ==> SectionOf(k) in m }

  /** A key of a section, printed under the section's header. */
  predicate CleanEntry(k: string, v: Option<string>) {
    InSection(SectionOf(k), k) && CleanLine(k[|SectionOf(k)| + 1..], ValueText(v), 30)
  }

  /** Every line the dump writes is clean: headers and the keys below them when there is a section, and all
      keys as they are when there is none. */
  ghost predicate CleanStore(m: Store) {
    if HasSections(m) then
      && (forall k :: k in m && IsSection(k) ==> CleanSection(k))
      && forall k :: k in m && !IsSection(k) && SectionOf(k) in m ==> CleanEntry(k, m[k])
    else
      forall k :: k in m ==> CleanLine(k, PlainText(m[k]), 0)
  }

  /** The sections, and the keys whose section has an entry. */
  function WithSections(m: Store): Store {
    map k | k in m && (IsSection(k) || SectionOf(k) in m) :: m[k]
  }

  /** What a file holds of a store: sections have no value, and other keys what is read from their printed one. */
  function Normal(m: Store): Store {
    map k | k in m :: if IsSection(k) then None else Some(LoadedValue(ValueText(m[k])))
  }

  /** Keys printed without a header: they come back in the section without a name. */
  function Renamed(m: Store): Store {
    ColonInjective();
    map k | k in m :: ":" + k := Some(LoadedValue(PlainText(m[k])))
  }

  lemma ColonInjective()
    ensures forall a: string, b: string :: ":" + a == ":" + b ==> a == b
  {
    forall a: string, b: string | ":" + a == ":" + b
      ensures a == b
    {
      assert (":" + a)[1..] == a && (":" + b)[1..] == b;
    }
  }

  /** The store that the dump of a clean store loads to. */
  ghost function Reloaded(m: Store): Store {
    if HasSections(m) then Normal(WithSections(m)) else Renamed(m)
  }

  // ---------- Sections ----------

  /** The store after the lines of section s. */
  function AddKeys(es: seq<Entry>, s: string, m: Store): Store {
    if es == [] then m
    else
      var e, before := es[|es| - 1], AddKeys(es[..|es| - 1], s, m);
      if InSection(s, e.key) then before[e.key := Some(LoadedValue(ValueText(e.val)))] else before
  }

  /** The store after the sections with these names. */
  function AddSections(es: seq<Entry>, names: seq<string>): Store {
    if names == [] then map[]
    else
      var s := names[|names| - 1];
      AddKeys(es, s, AddSections(es, names[..|names| - 1])[s := None])
  }

  ghost predicate CleanKeys(es: seq<Entry>, s: string) {
    forall e :: e in es && InSection(s, e.key) ==> CleanLine(e.key[|s| + 1..], ValueText(e.val), 30)
  }

  lemma {:induction false} KeysLoad(es: seq<Entry>, s: string, rest: string, st: LoadState)
    requires CleanKeys(es, s) && st.kept == "" && st.section == s
    ensures LoadFrom(KeyLines(es, s) + rest, st) == LoadFrom(rest, st.(store := AddKeys(es, s, st.store)))
  {
    hide LoadFrom, CleanLine, LoadedValue;
    if es == [] {
      assert "" + rest == rest;
    } else {
      var init, e := es[..|es| - 1], es[|es| - 1];
      assert e in es && forall x :: x in init ==> x in es;
      if InSection(s, e.key) {
        var k, v := e.key[|s| + 1..], ValueText(e.val);
        var after := st.(store := AddKeys(init, s, st.store));
        assert KeyLines(es, s) + rest == KeyLines(init, s) + (KeyLine(s, e) + rest);
        KeysLoad(init, s, KeyLine(s, e) + rest, st);
        assert s + ":" + k == e.key;
        KeyStep(k, v, 30, rest, after);
      } else {
        assert KeyLines(es, s) + rest == KeyLines(init, s) + rest;
        KeysLoad(init, s, rest, st);
      }
    }
  }

  lemma SectionLoads(es: seq<Entry>, s: string, rest: string, st: LoadState)
    requires CleanSection(s) && CleanKeys(es, s) && st.kept == ""
    ensures LoadFrom(SectionText(es, s) + rest, st)
         == LoadFrom(rest, st.(section := s, store := AddKeys(es, s, st.store[s := None])))
  {
    hide LoadFrom, CleanKeys, CleanSection, KeyLines;
    var body := KeyLines(es, s) + ("\n" + rest);
    assert SectionText(es, s) + rest == "\n" + ("[" + s + "]\n" + body);
    BlankLine("[" + s + "]\n" + body, st);
    SectionStep(s, body, st);
    var inside := st.(section := s, store := st.store[s := None]);
    KeysLoad(es, s, "\n" + rest, inside);
    BlankLine(rest, inside.(store := AddKeys(es, s, inside.store)));
  }

  ghost predicate CleanNames(es: seq<Entry>, names: seq<string>) {
    forall s :: s in names ==> CleanSection(s) && CleanKeys(es, s) && s in EntryMap(es)
  }

  /** The state after the sections with these names. */
  function AfterSections(es: seq<Entry>, names: seq<string>): LoadState {
    LoadState("", if names == [] then "" else names[|names| - 1], AddSections(es, names), false)
  }

  lemma {:induction false} SectionsLoad(es: seq<Entry>, names: seq<string>, rest: string)
    requires CleanNames(es, names)
    ensures LoadFrom(SectionTexts(es, names) + rest, START) == LoadFrom(rest, AfterSections(es, names))
  {
    hide CleanKeys, SectionText, EntryMap, LoadFrom, CleanSection, Strlwc;
    if names == [] {
      assert "" + rest == rest;
    } else {
      var init, s := names[..|names| - 1], names[|names| - 1];
      assert s in names && forall x :: x in init ==> x in names;
      var tail := SectionText(es, s) + rest;
      SectionsLoad(es, init, tail);
      SectionFound(es, s);
      assert SectionTexts(es, names) + rest == SectionTexts(es, init) + tail;
      SectionLoads(es, s, rest, AfterSections(es, init));
    }
  }

  lemma SectionFound(es: seq<Entry>, s: string)
    requires CleanSection(s) && s in EntryMap(es)
    ensures Found(EntryMap(es), s)
  {
    LowerWhole(s, ASCIILINESZ + 1);
  }

  // ---------- The loaded store ----------

  lemma {:induction false} AddKeysAt(es: seq<Entry>, s: string, m: Store, q: string)
    ensures InSection(s, q) && q in EntryMap(es) ==>
      q in AddKeys(es, s, m) && AddKeys(es, s, m)[q] == Some(LoadedValue(ValueText(EntryMap(es)[q])))
    ensures !(InSection(s, q) && q in EntryMap(es)) ==>
              (q in AddKeys(es, s, m) <==> q in m) && (q in m ==> AddKeys(es, s, m)[q] == m[q])
  {
    hide LoadedValue;
    if es != [] {
      AddKeysAt(es[..|es| - 1], s, m, q);
    }
  }

  ghost predicate HasSection(names: seq<string>, q: string) { exists s :: s in names && InSection(s, q) }

  lemma {:induction false} AddSectionsAt(es: seq<Entry>, names: seq<string>, q: string)
    requires forall s :: s in names ==> IsSection(s)
    ensures IsSection(q) ==> (q in AddSections(es, names) <==> q in names)
                             && (q in names ==> AddSections(es, names)[q] == None)
    ensures !IsSection(q) ==> (q in AddSections(es, names) <==> q in EntryMap(es) && HasSection(names, q))
                              && (q in AddSections(es, names) ==>
                                AddSections(es, names)[q] == Some(LoadedValue(ValueText(EntryMap(es)[q]))))
  {
    hide LoadedValue;
    if names != [] {
      var init, s := names[..|names| - 1], names[|names| - 1];
      assert names == init + [s];
      AddSectionsAt(es, init, q);
      AddKeysAt(es, s, AddSections(es, init)[s := None], q);
      SectionOfIs(s, q);
      hide EntryMap, AddKeys;
      if HasSection(init, q) {
        var t :| t in init && InSection(t, q);
        assert t in names;
      }
    }
  }

  lemma {:induction false} NamesAreSections(es: seq<Entry>, q: string)
    ensures q in SectionNames(es) <==> q in EntryMap(es) && IsSection(q)
  {
    if es != [] { NamesAreSections(es[..|es| - 1], q); }
  }

  /** Loading the dumped sections gives every section without a value and every key of theirs with what is read
      from its printed value. */
  lemma LoadedIsNormal(es: seq<Entry>)
    ensures AddSections(es, SectionNames(es)) == Normal(WithSections(EntryMap(es)))
  {
    var names, m := SectionNames(es), EntryMap(es);
    var got, want := AddSections(es, names), Normal(WithSections(m));
    hide EntryMap, SectionNames, AddSections, LoadedValue;
    forall s | s in names
      ensures IsSection(s)
    {
      NamesAreSections(es, s);
    }
    forall q
      ensures q in got <==> q in want
      ensures q in got ==> got[q] == want[q]
    {
      AddSectionsAt(es, names, q);
      NamesAreSections(es, q);
      if !IsSection(q) {
        HasItsSection(es, q);
      }
    }
  }

  lemma HasItsSection(es: seq<Entry>, q: string)
    requires !IsSection(q)
    ensures HasSection(SectionNames(es), q) <==> SectionOf(q) in EntryMap(es)
  {
    hide EntryMap, SectionNames;
    var s, names := SectionOf(q), SectionNames(es);
    forall i | 0 <= i < |s|
      ensures s[i] != ':'
    {
      assert NotColon(q[i]);
    }
    NamesAreSections(es, s);
    SectionOfIs(s, q);
    if HasSection(names, q) {
      var t :| t in names && InSection(t, q);
      NamesAreSections(es, t);
      SectionOfIs(t, q);
    }
  }

  lemma {:induction false} EntryInMap(es: seq<Entry>, e: Entry)
    requires DistinctEntries(es) && e in es
    ensures e.key in EntryMap(es) && EntryMap(es)[e.key] == e.val
  {
    var last := |es| - 1;
    if e != es[last] { EntryInMap(es[..last], e); }
  }

  lemma NamesAreClean(es: seq<Entry>)
    requires DistinctEntries(es) && CleanStore(EntryMap(es)) && HasSections(EntryMap(es))
    ensures CleanNames(es, SectionNames(es))
  {
    hide EntryMap, DistinctEntries, CleanSection, CleanLine, SectionNames;
    var m := EntryMap(es);
    forall s | s in SectionNames(es)
      ensures CleanSection(s) && CleanKeys(es, s) && s in m
    {
      NamesAreSections(es, s);
      forall e | e in es && InSection(s, e.key)
        ensures CleanLine(e.key[|s| + 1..], ValueText(e.val), 30)
      {
        EntryInMap(es, e);
        SectionOfIs(s, e.key);
        assert CleanEntry(e.key, m[e.key]);
      }
    }
  }

  lemma NamesIfSections(es: seq<Entry>)
    ensures SectionNames(es) != [] <==> HasSections(EntryMap(es))
  {
    var names := SectionNames(es);
    if names != [] {
      NamesAreSections(es, names[0]);
    }
    if HasSections(EntryMap(es)) {
      var k :| k in EntryMap(es) && IsSection(k);
      NamesAreSections(es, k);
    }
  }

  /** With a section, loading the dump gives the normal form of the entries that have a section entry. */
  lemma DumpKeepsSections(es: seq<Entry>)
    requires DistinctEntries(es) && CleanStore(EntryMap(es)) && HasSections(EntryMap(es))
    ensures LoadFile(DumpText(es)) == Some(Normal(WithSections(EntryMap(es))))
  {
    hide EntryMap, DistinctEntries, SectionTexts, AddSections, Normal, WithSections, SectionNames, CleanNames;
    NamesIfSections(es);
    LoadedIsNormal(es);
    NamesAreClean(es);
    hide CleanStore;
    SectionsLoad(es, SectionNames(es), "\n");
    BlankLine("", AfterSections(es, SectionNames(es)));
    assert "\n" + "" == "\n";
  }

  // ---------- Without sections ----------

  /** The store after the lines of plain keys. */
  function AddPlain(es: seq<Entry>): Store {
    if es == [] then map[]
    else AddPlain(es[..|es| - 1])[":" + es[|es| - 1].key := Some(LoadedValue(PlainText(es[|es| - 1].val)))]
  }

  ghost predicate CleanPlain(es: seq<Entry>) { forall e :: e in es ==> CleanLine(e.key, PlainText(e.val), 0) }

  lemma {:induction false} PlainLoads(es: seq<Entry>, rest: string)
    requires CleanPlain(es)
    ensures LoadFrom(PlainLines(es) + rest, START) == LoadFrom(rest, START.(store := AddPlain(es)))
  {
    hide LoadFrom, CleanLine, PlainText, LoadedValue;
    if es == [] {
      assert "" + rest == rest;
    } else {
      var init, e := es[..|es| - 1], es[|es| - 1];
      assert e in es && forall x :: x in init ==> x in es;
      var v := PlainText(e.val);
      assert Padded(e.key, 0) == e.key;
      var line := Padded(e.key, 0) + " = " + v + "\n";
      assert PlainLines(es) + rest == PlainLines(init) + (line + rest);
      PlainLoads(init, line + rest);
      KeyStep(e.key, v, 0, rest, START.(store := AddPlain(init)));
      assert "" + ":" + e.key == ":" + e.key;
    }
  }

  lemma RenamedAt(m: Store, q: string)
    ensures q in Renamed(m) <==> q != "" && q[0] == ':' && q[1..] in m
    ensures q in Renamed(m) ==> Renamed(m)[q] == Some(LoadedValue(PlainText(m[q[1..]])))
  {
    hide PlainText, LoadedValue;
    ColonInjective();
    if q in Renamed(m) {
      var k :| k in m && ":" + k == q;
      assert q[1..] == k;
    }
    if q != "" && q[0] == ':' && q[1..] in m {
      assert ":" + q[1..] == q;
    }
  }

  lemma RenamedNext(m: Store, k: string, v: Option<string>)
    ensures Renamed(m[k := v]) == Renamed(m)[":" + k := Some(LoadedValue(PlainText(v)))]
  {
    hide PlainText, LoadedValue, Renamed;
    var l, r := Renamed(m[k := v]), Renamed(m)[":" + k := Some(LoadedValue(PlainText(v)))];
    assert (":" + k)[1..] == k;
    forall q
      ensures q in l <==> q in r
      ensures q in l ==> l[q] == r[q]
    {
      RenamedAt(m[k := v], q);
      RenamedAt(m, q);
      if q != "" && q[0] == ':' && q[1..] == k {
        assert q == ":" + k;
      }
    }
  }

  lemma {:induction false} PlainIsRenamed(es: seq<Entry>)
    ensures AddPlain(es) == Renamed(EntryMap(es))
  {
    hide LoadedValue;
    if es != [] {
      var init, e := es[..|es| - 1], es[|es| - 1];
      PlainIsRenamed(init);
      RenamedNext(EntryMap(init), e.key, e.val);
      hide Renamed, PlainText;
    }
  }

  /** Without a section, every key comes back with a colon in front, and null as "(null)". */
  lemma DumpRenamesKeys(es: seq<Entry>)
    requires DistinctEntries(es) && CleanStore(EntryMap(es)) && !HasSections(EntryMap(es))
    ensures LoadFile(DumpText(es)) == Some(Renamed(EntryMap(es)))
  {
    hide EntryMap, Renamed, PlainText, CleanLine, SectionNames, DistinctEntries;
    NamesIfSections(es);
    forall e | e in es
      ensures CleanLine(e.key, PlainText(e.val), 0)
    {
      EntryInMap(es, e);
    }
    PlainLoads(es, "");
    PlainIsRenamed(es);
    assert PlainLines(es) + "" == PlainLines(es);
  }

  // ---------- The round trip ----------

  /** Dumping a clean store and loading the file: with and without sections. */
  lemma DumpThenLoad(es: seq<Entry>)
    requires DistinctEntries(es) && CleanStore(EntryMap(es))
    ensures LoadFile(DumpText(es)) == Some(Reloaded(EntryMap(es)))
  {
    hide CleanStore, EntryMap, DistinctEntries, DumpText, LoadFile, HasSections;
    if HasSections(EntryMap(es)) {
      DumpKeepsSections(es);
    } else {
      DumpRenamesKeys(es);
    }
  }

  lemma AllHaveSections(m: Store)
    ensures SectionsPresent(m) <==> WithSections(m) == m
  {
    if WithSections(m) == m {
      assert forall k :: k in m ==> k in WithSections(m);
    }
  }

  /** A file can hold this entry: a section without a value, or a key with one that is read as it is. */
  predicate Storable(k: string, v: Option<string>) {
    if IsSection(k) then v == None else v.Some? && Survives(v.value)
  }

  lemma StorableEntry(k: string, v: Option<string>)
    ensures (if IsSection(k) then None else Some(LoadedValue(ValueText(v)))) == v <==> Storable(k, v)
  {
    ValueSurvives(ValueText(v));
  }

  lemma NormalIsSame(m: Store)
    ensures Normal(m) == m <==> forall k :: k in m ==> Storable(k, m[k])
  {
    hide Storable, LoadedValue;
    forall k | k in m
      ensures Normal(m)[k] == m[k] <==> Storable(k, m[k])
    {
      StorableEntry(k, m[k]);
    }
    if Normal(m) == m {
      forall k | k in m
        ensures Storable(k, m[k])
      {
        assert Normal(m)[k] == m[k];
      }
    }
  }

  /** A store with an entry has a longest key. */
  lemma {:induction false} LongestKey(keys: set<string>) returns (k: string)
    requires keys != {}
    ensures k in keys && forall q :: q in keys ==> |q| <= |k|
  {
    var a :| a in keys;
    var rest := keys - {a};
    if rest == {} {
      k := a;
    } else {
      k := LongestKey(rest);
      if |a| > |k| { k := a; }
    }
    assert forall q :: q in keys ==> q == a || q in rest;
  }

  lemma RenamedDiffers(m: Store)
    ensures Renamed(m) == m <==> m == map[]
  {
    if m != map[] {
      hide PlainText;
      assert m.Keys != {};
      var k := LongestKey(m.Keys);
      assert ":" + k in Renamed(m) && |":" + k| > |k|;
    }
  }

  /** Exactly the stores whose keys all have a section entry and whose entries a file can hold are reloaded
      unchanged. */
  lemma ReloadedIsSame(m: Store)
    ensures Reloaded(m) == m <==> SectionsPresent(m) && forall k :: k in m ==> Storable(k, m[k])
  {
    hide Storable, LoadedValue;
    var w := WithSections(m);
    if HasSections(m) {
      AllHaveSections(m);
      NormalIsSame(m);
      assert Normal(w).Keys == w.Keys;
      if Normal(w) == m {
        assert w.Keys == m.Keys && w == m;
      }
    } else {
      RenamedDiffers(m);
      if m != map[] {
        var k :| k in m;
        ShorterSection(k);
        assert SectionOf(k) !in m;
      }
    }
  }

  /** A section name has no colon. */
  lemma ShorterSection(q: string)
    requires !IsSection(q)
    ensures IsSection(SectionOf(q)) && SectionOf(q) != q
  {
    var s := SectionOf(q);
    forall i | 0 <= i < |s|
      ensures s[i] != ':'
    {
      assert NotColon(q[i]);
    }
  }

  /** A clean store comes back from its file unchanged exactly when every key has a section entry, no
      section has a value, and every key has one that is read as it is. */
  lemma RoundTrip(es: seq<Entry>)
    requires DistinctEntries(es) && CleanStore(EntryMap(es))
    ensures var m := EntryMap(es);
      LoadFile(DumpText(es)) == Some(m) <==> SectionsPresent(m) && forall k :: k in m ==> Storable(k, m[k])
  {
    hide EntryMap, DistinctEntries, DumpText, LoadFile, Reloaded, CleanStore, Storable;
    DumpThenLoad(es);
    ReloadedIsSame(EntryMap(es));
  }

  lemma EntriesNext(es: seq<Entry>, e: Entry)
    requires DistinctEntries(es) && e.key !in EntryMap(es)
    ensures DistinctEntries(es + [e]) && EntryMap(es + [e]) == EntryMap(es)[e.key := e.val]
  {
    assert (es + [e])[..|es|] == es;
  }

  lemma LostKeyStore(m: Store)
    requires m == map["s" := None, "t:k" := Some("v")]
    ensures HasSections(m) && CleanStore(m) && Normal(WithSections(m)) == map["s" := None]
  {
    assert "s" in m && "t:k"[1] == ':';
    SpanIs("t:k", NotColon, 1);
    assert SectionOf("t:k") == "t";
    assert CleanSection("s");
    hide Span, SectionOf, CleanSection, CleanEntry, CleanLine, PlainText;
    assert WithSections(m) == map["s" := None];
  }

  /** A key whose section has no entry is lost when another section has one. */
  lemma LostKey()
    ensures LoadFile(DumpText([Entry("s", None), Entry("t:k", Some("v"))])) == Some(map["s" := None])
  {
    var e, f := Entry("s", None), Entry("t:k", Some("v"));
    var es := [e, f];
    EntriesNext([], e);
    EntriesNext([e], f);
    assert [] + [e] == [e] && [e] + [f] == es;
    hide LoadFile, DumpText, CleanStore, HasSections, Normal, WithSections;
    LostKeyStore(EntryMap(es));
    DumpThenLoad(es);
  }

  lemma PlainKeyIsClean()
    ensures CleanLine("a:k", "v", 0) && LoadedValue("v") == "v"
  {
    assert Padded("a:k", 0) == "a:k";
    Untrimmed("v");
    ValueSurvives("v");
    hide TrimEnd, LoadedValue;
  }

  lemma RenamedKeyStore(m: Store)
    requires m == map["a:k" := Some("v")]
    ensures !HasSections(m) && CleanStore(m) && Renamed(m) == map[":a:k" := Some("v")]
  {
    assert ':' == "a:k"[1];
    assert ":" + "a:k" == ":a:k";
    PlainKeyIsClean();
    hide LoadedValue, CleanLine;
    assert Renamed(m) == map[":a:k" := Some("v")];
  }

  /** A key comes back under another name when no section has an entry. */
  lemma RenamedKey()
    ensures LoadFile(DumpText([Entry("a:k", Some("v"))])) == Some(map[":a:k" := Some("v")])
  {
    var es := [Entry("a:k", Some("v"))];
    EntriesNext([], es[0]);
    assert [] + es == es;
    hide LoadFile, DumpText, CleanStore, HasSections, Renamed;
    RenamedKeyStore(EntryMap(es));
    DumpThenLoad(es);
  }

  // ---------- A quoted value with a remark ----------

  lemma NormalOfTwo(s: string, q: string, v: string)
    requires IsSection(s) && !IsSection(q)
    ensures Normal(map[s := None, q := Some(v)]) == map[s := None, q := Some(LoadedValue(v))]
  {
    hide LoadedValue, IsSection;
  }

  lemma OneKeyStore(m: Store, s: string, k: string, v: string)
    requires CleanSection(s) && IsSection(s) && CleanLine(k, v, 30)
    requires m == map[s := None, s + ":" + k := Some(v)]
    ensures CleanStore(m) && Reloaded(m) == map[s := None, s + ":" + k := Some(LoadedValue(v))]
  {
    var q := s + ":" + k;
    assert InSection(s, q) && q[|s| + 1..] == k && s in m;
    SectionOfIs(s, q);
    hide CleanLine, CleanSection, LoadedValue, SectionOf, IsSection, InSection, Normal, WithSections;
    assert CleanEntry(q, m[q]);
    AllHaveSections(m);
    NormalOfTwo(s, q, v);
  }

  /** A file with one section and one key, dumped and loaded again. */
  lemma OneKeyReloads(s: string, k: string, v: string)
    requires CleanSection(s) && IsSection(s) && CleanLine(k, v, 30)
    ensures LoadFile(DumpText([Entry(s, None), Entry(s + ":" + k, Some(v))]))
         == Some(map[s := None, s + ":" + k := Some(LoadedValue(v))])
  {
    var e, f := Entry(s, None), Entry(s + ":" + k, Some(v));
    EntriesNext([], e);
    EntriesNext([e], f);
    assert [] + [e] == [e] && [e] + [f] == [e, f];
    hide LoadFile, DumpText, CleanStore, Reloaded, CleanSection, IsSection, CleanLine, LoadedValue, EntryMap,
      DistinctEntries;
    assert EntryMap([e, f]) == EntryMap([])[s := None][s + ":" + k := Some(v)] && EntryMap([]) == map[]
      by { NoEntries(); }
    OneKeyStore(EntryMap([e, f]), s, k, v);
    DumpThenLoad([e, f]);
  }

  lemma NoEntries()
    ensures EntryMap([]) == map[]
  {}

  /** A file with one section and one key, loaded. */
  lemma OneKeyLoads(s: string, k: string, v: string, w: nat)
    requires CleanSection(s) && CleanLine(k, v, w)
    ensures LoadFile("[" + s + "]\n" + (Padded(k, w) + " = " + v + "\n"))
         == Some(map[s := None, s + ":" + k := Some(LoadedValue(v))])
  {
    hide LoadFrom, Padded, CleanLine, LoadedValue, CleanSection;
    var line := Padded(k, w) + " = " + v + "\n";
    assert line + "" == line;
    SectionStep(s, line, START);
    KeyStep(k, v, w, "", START.(section := s, store := map[s := None]));
    NothingToLoad(START.(section := s, store := map[s := None, s + ":" + k := Some(LoadedValue(v))]));
  }

  /** A quoted value may hold a remark character; the dump prints it without quotes, and it comes back cut off. */
  lemma QuotedRemarkIsCut(s: string, k: string, a: string, rest: string)
    requires CleanSection(s) && IsSection(s) && CleanLine(k, "\"" + (a + rest) + "\"", 0) && CleanLine(k, a + rest, 30)
    requires a != "" && NoOuterBlanks(a) && ';' !in a && '#' !in a && '"' !in a + rest && a[0] != '\''
    requires rest != "" && IsRemark(rest[0]) && !IsSpace(rest[|rest| - 1])
    ensures LoadFile("[" + s + "]\n" + (Padded(k, 0) + " = " + ("\"" + (a + rest) + "\"") + "\n"))
         == Some(map[s := None, s + ":" + k := Some(a + rest)])
    ensures LoadFile(DumpText([Entry(s, None), Entry(s + ":" + k, Some(a + rest))]))
         == Some(map[s := None, s + ":" + k := Some(a)])
  {
    hide LoadFile, DumpText, Padded, CleanLine, LoadedValue, CleanSection, IsSection;
    QuotedIsRead(a + rest);
    assert a[0] in a + rest;
    RemarkCuts(a, rest);
    OneKeyLoads(s, k, "\"" + (a + rest) + "\"", 0);
    OneKeyReloads(s, k, a + rest);
  }

  /** Such as section s, key k and value a;b. */
  lemma RemarkIsClean()
    ensures CleanLine("k", "\"" + ("a" + ";b") + "\"", 0) && CleanLine("k", "a" + ";b", 30)
    ensures CleanSection("s") && IsSection("s")
  {
    var plain, quoted := "a" + ";b", "\"" + ("a" + ";b") + "\"";
    Untrimmed(quoted);
    Untrimmed(plain);
    hide TrimEnd;
    assert Padded("k", 0) == "k" && |Padded("k", 30)| == 30;
  }
}
