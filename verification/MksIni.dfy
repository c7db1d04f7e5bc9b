/** The settings store: setting a key in a section, and updating the file in one go. */
module MksIni {
  import opened Spans
  import opened Wrappers
  import opened Dictionary
  import opened IniText
  import opened IniLoad
  import opened IniDump
  import opened IniLine
  import opened IniRoundTrip

  /** Names are stored in lower case, cut to the buffer. */
  function Stored(name: string): string { Strlwc(name, ASCIILINESZ + 1) }

  function SetResult(m: Store, section: string, key: string, value: string): Store {
    m[Stored(section) := None][Stored(section + ":" + key) := Some(value)]
  }

  method IniparserSet(ini: Dictionary, entry: string, val: Option<string>)
    requires ini.Valid()
    modifies ini, ini.Arrays()
    ensures ini.Valid() && fresh(ini.Arrays() - old(ini.Arrays()))
    ensures ini.Contents() == old(ini.Contents())[Stored(entry) := val]
  {
    var lower := new Buffer(entry);
    lower.Lowercase(ASCIILINESZ + 1);
    ini.Set(lower.text, val);
  }

  method IniparserUnset(ini: Dictionary, entry: string)
    requires ini.Valid()
    modifies ini, ini.Arrays()
    ensures ini.Valid() && ini.Arrays() == old(ini.Arrays())
    ensures ini.Contents() == old(ini.Contents()) - {Stored(entry)}
  {
    var lower := new Buffer(entry);
    lower.Lowercase(ASCIILINESZ + 1);
    ini.Unset(lower.text);
  }

  /** Sets a key; fails only when no store is loaded. */
  method MksiniSet(mksini: Dictionary?, section: string, key: string, value: string) returns (ret: int)
    requires mksini != null ==> mksini.Valid()
    modifies mksini, if mksini == null then {} else mksini.Arrays()
    ensures ret == if mksini == null then -1 else 0
    ensures mksini != null ==>
              mksini.Valid() && mksini.Contents() == SetResult(old(mksini.Contents()), section, key, value)
  {
    hide Dictionary.Valid, Dictionary.Contents;
    if mksini == null { return -1; }
    IniparserSet(mksini, section, None);
    IniparserSet(mksini, section + ":" + key, Some(value));
    ret := 0;
  }

  method MksiniUnset(mksini: Dictionary?, section: string, key: string)
    requires mksini != null ==> mksini.Valid()
    modifies mksini, if mksini == null then {} else mksini.Arrays()
    ensures mksini != null ==>
              mksini.Valid() && mksini.Contents() == old(mksini.Contents()) - {Stored(section + ":" + key)}
  {
    if mksini == null { return; }
    IniparserUnset(mksini, section + ":" + key);
  }

  /** Names that fit the buffer are stored in lower case, the key behind its section and a colon. */
  lemma SetIsLower(m: Store, section: string, key: string, value: string)
    requires |section| + |key| <= 1023
    ensures SetResult(m, section, key, value)
         == m[Lower(section) := None][Lower(section) + ":" + Lower(key) := Some(value)]
  {
    LowerWhole(section, ASCIILINESZ + 1);
    LowerWhole(section + ":" + key, ASCIILINESZ + 1);
    assert Lower(section + ":" + key) == Lower(section) + ":" + Lower(key);
  }

  // ---------- Every key keeps its section ----------

  lemma StoredSet(section: string, key: string)
    ensures var s, q := Stored(section), Stored(section + ":" + key);
      if |section| < ASCIILINESZ then s + ":" <= q && s == Lower(section) else s == q
  {
    var name := section + ":" + key;
    assert forall i :: 0 <= i < |section| ==> Lower(name)[i] == Lower(section)[i];
    if |section| < ASCIILINESZ {
      assert Lower(name)[..|section|] == Lower(section);
    } else {
      assert Lower(name)[..ASCIILINESZ] == Lower(section)[..ASCIILINESZ];
    }
  }

  lemma PrefixSection(s: string, q: string)
    requires s <= q && ':' in s
    ensures !IsSection(q) && SectionOf(q) == SectionOf(s)
  {
    var n := Span(s, NotColon);
    var i :| 0 <= i < |s| && s[i] == ':';
    assert !NotColon(s[i]) && n <= i;
    assert q[i] == ':' && s == q[..|s|];
    SpanIs(q, NotColon, n);
  }

  /** Setting a key keeps "every key has its section" exactly when the section name has no colon within
      the stored length, or the part before the colon is a section already. */
  lemma SetKeepsSections(m: Store, section: string, key: string, value: string)
    requires SectionsPresent(m)
    ensures SectionsPresent(SetResult(m, section, key, value))
       <==> IsSection(Stored(section)) || SectionOf(Stored(section)) in m
  {
    hide Stored;
    var s, q, r := Stored(section), Stored(section + ":" + key), SetResult(m, section, key, value);
    assert s <= q && (s + ":" <= q || s == q) by { StoredSet(section, key); }
    if IsSection(s) {
      if s != q { SectionOfIs(s, q); }
      assert SectionOf(q) == s || q == s;
    } else {
      PrefixSection(s, q);
      ShorterSection(s);
      ShorterSection(q);
      assert s in r && q in r;
    }
  }

  // ---------- Updating the file ----------

  /** Loads, sets, saves. A file that does not load is overwritten with nothing; otherwise, when every line
      that is saved is clean, loading the saved file gives what the dump keeps of the new store. */
  method MksiniUpdate(file: string, section: string, key: string, value: string) returns (result: int, saved: string)
    ensures LoadFile(file) == None ==> result == -1 && saved == ""
    ensures LoadFile(file) != None ==>
              var m := SetResult(LoadFile(file).value, section, key, value);
              result == 0 && (CleanStore(m) ==> LoadFile(saved) == Some(Reloaded(m)))
  {
    hide LoadFile, SetResult, CleanStore, Reloaded;
    var mksini := IniparserLoad(file);
    result := MksiniSet(mksini, section, key, value);
    saved := "";
    if mksini != null {
      saved := IniparserDumpIni(mksini);
      AllIsContents(mksini);
      if CleanStore(mksini.Contents()) {
        DumpThenLoad(All(mksini));
      }
    }
  }

  /** When the store before an update survives a dump unchanged, the one after it does so exactly when the new
      value is read as it is and the section name has no colon; a name too long for the buffer ends up as the
      key itself, which needs a section as other keys do. */
  lemma UpdateIsExact(m: Store, section: string, key: string, value: string)
    requires Reloaded(m) == m
    ensures var r, s := SetResult(m, section, key, value), Stored(section);
      Reloaded(r) == r <==>
      Survives(value) && if |section| < ASCIILINESZ then IsSection(s) else !IsSection(s) && SectionOf(s) in m
  {
    hide Reloaded, Stored, Survives;
    var r, s, q := SetResult(m, section, key, value), Stored(section), Stored(section + ":" + key);
    StoredSet(section, key);
    ReloadedIsSame(m);
    ReloadedIsSame(r);
    SetKeepsSections(m, section, key, value);
    assert r[q] == Some(value);
    assert Storable(q, r[q]) <==> !IsSection(q) && Survives(value);
    if |section| < ASCIILINESZ {
      assert q[|s|] == ':' && s != q && r[s] == None;
    }
  }
}
