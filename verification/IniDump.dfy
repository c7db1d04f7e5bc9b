/** Writing an INI file from the slot table. */
module IniDump {
  import opened Wrappers
  import opened Dictionary
  import opened IniText

  // ---------- Entries in slot order ----------

  datatype Entry = Entry(key: string, val: Option<string>)

  function Entries(keys: Keys, vals: seq<Option<string>>): seq<Entry>
    requires |keys| == |vals|
  {
    if keys == [] then []
    else
      var last := |keys| - 1;
      Entries(keys[..last], vals[..last]) + if keys[last].Some? then [Entry(keys[last].value, vals[last])] else []
  }

  function EntryMap(es: seq<Entry>): map<string, Option<string>> {
    if es == [] then map[] else EntryMap(es[..|es| - 1])[es[|es| - 1].key := es[|es| - 1].val]
  }

  /** No key occurs twice. */
  ghost predicate DistinctEntries(es: seq<Entry>) {
    es == [] || (es[|es| - 1].key !in EntryMap(es[..|es| - 1]) && DistinctEntries(es[..|es| - 1]))
  }

  /** The entries in slot order are the entries of the store. */
  lemma {:induction false} EntriesAreTable(keys: Keys, vals: seq<Option<string>>)
    requires |keys| == |vals| && Distinct(keys)
    ensures EntryMap(Entries(keys, vals)) == Table(keys, vals) && DistinctEntries(Entries(keys, vals))
  {
    if keys == [] {
      assert Table(keys, vals) == map[];
    } else {
      var last := |keys| - 1;
      EntriesAreTable(keys[..last], vals[..last]);
      TableLast(keys, vals);
      hide Table, Distinct;
      var before := Entries(keys[..last], vals[..last]);
      if keys[last].Some? {
        assert (before + [Entry(keys[last].value, vals[last])])[..|before|] == before;
      } else {
        assert before + [] == before;
      }
    }
  }

  // ---------- The text ----------

  predicate NotColon(c: char) { c != ':' }

  predicate IsSection(k: string) { ':' !in k }

  /** The key lies in section s: it starts with the name and a colon. */
  predicate InSection(s: string, k: string) { s + ":" <= k }

  function SectionNames(es: seq<Entry>): seq<string> {
    if es == [] then []
    else SectionNames(es[..|es| - 1]) + if IsSection(es[|es| - 1].key) then [es[|es| - 1].key] else []
  }

  function Spaces(n: nat): (s: string)
    ensures |s| == n && forall c :: c in s ==> c == ' '
  {
    seq(n, _ => ' ')
  }

  /** Left-aligned in a field of the given width. */
  function Padded(s: string, width: nat): string { s + Spaces(if |s| < width then width - |s| else 0) }

  /** `%-30s`. */
  function Pad30(s: string): string { Padded(s, 30) }

  function ValueText(v: Option<string>): string { if v.None? then "" else v.value }

  function KeyLine(s: string, e: Entry): string
    requires InSection(s, e.key)
  {
    Pad30(e.key[|s| + 1..]) + " = " + ValueText(e.val) + "\n"
  }

  function KeyLines(es: seq<Entry>, s: string): string {
    if es == [] then ""
    else
      var e := es[|es| - 1];
      KeyLines(es[..|es| - 1], s) + if InSection(s, e.key) then KeyLine(s, e) else ""
  }

  function SectionText(es: seq<Entry>, s: string): string {
    "\n[" + s + "]\n" + KeyLines(es, s) + "\n"
  }

  /** An entry under the lower-case form of a name. */
  predicate Found(m: map<string, Option<string>>, name: string) { Strlwc(name, ASCIILINESZ + 1) in m }

  function SectionTexts(es: seq<Entry>, names: seq<string>): string {
    if names == [] then ""
    else
      var s := names[|names| - 1];
      SectionTexts(es, names[..|names| - 1]) + if Found(EntryMap(es), s) then SectionText(es, s) else ""
  }

  /** `%s` of null prints as "(null)". */
  function PlainText(v: Option<string>): string { if v.None? then "(null)" else v.value }

  function PlainLines(es: seq<Entry>): string {
    if es == [] then ""
    else
      var e := es[|es| - 1];
      PlainLines(es[..|es| - 1]) + (e.key + " = " + PlainText(e.val) + "\n")
  }

  function DumpText(es: seq<Entry>): string {
    if SectionNames(es) == [] then PlainLines(es) else SectionTexts(es, SectionNames(es)) + "\n"
  }

  // ---------- The loops over the slots ----------

  /** The entries of the first j slots. */
  ghost function UpTo(d: Dictionary, j: nat): seq<Entry>
    requires d.Valid() && j <= d.size
    reads d, d.val, d.key, d.hash
  {
    Entries(d.key[..j], d.val[..j])
  }

  /** One more slot. */
  lemma UpToNext(d: Dictionary, j: nat)
    requires d.Valid() && j < d.size
    ensures d.key[j].None? ==> UpTo(d, j + 1) == UpTo(d, j)
    ensures d.key[j].Some? ==> UpTo(d, j + 1) != [] && UpTo(d, j + 1)[..|UpTo(d, j + 1)| - 1] == UpTo(d, j)
                               && UpTo(d, j + 1)[|UpTo(d, j + 1)| - 1] == Entry(d.key[j].value, d.val[j])
  {
    assert d.key[..j + 1][..j] == d.key[..j] && d.val[..j + 1][..j] == d.val[..j];
    assert UpTo(d, j) + [] == UpTo(d, j);
  }

  /** The entries of all slots. */
  ghost function All(d: Dictionary): seq<Entry>
    requires d.Valid()
    reads d, d.val, d.key, d.hash
  {
    UpTo(d, d.size)
  }

  lemma AllIsContents(d: Dictionary)
    requires d.Valid()
    ensures EntryMap(All(d)) == d.Contents() && DistinctEntries(All(d))
  {
    assert d.key[..d.size] == d.key[..] && d.val[..d.size] == d.val[..];
    EntriesAreTable(d.key[..], d.val[..]);
  }

  lemma NoEntries(d: Dictionary)
    requires d.Valid()
    ensures UpTo(d, 0) == []
  {}

  method IniparserGetnsec(d: Dictionary) returns (nsec: nat)
    requires d.Valid()
    ensures nsec == |SectionNames(All(d))|
  {
    hide UpTo, Distinct, Occupied, Hash;
    nsec := 0;
    NoEntries(d);
    for i := 0 to d.size
      invariant nsec == |SectionNames(UpTo(d, i))|
    {
      UpToNext(d, i);
      if d.key[i].Some? && ':' !in d.key[i].value {
        nsec := nsec + 1;
      }
    }
  }

  /** The sections found so far are the first ones of all. */
  lemma {:induction false} NamesGrow(d: Dictionary, i: nat, j: nat)
    requires d.Valid() && i <= j <= d.size
    ensures SectionNames(UpTo(d, i)) <= SectionNames(UpTo(d, j))
  {
    if i < j {
      NamesGrow(d, i, j - 1);
      UpToNext(d, j - 1);
      hide UpTo;
    }
  }

  /** The n-th section in slot order. */
  method IniparserGetsecname(d: Dictionary, n: int) returns (name: Option<string>)
    requires d.Valid()
    ensures name == if 0 <= n < |SectionNames(All(d))| then Some(SectionNames(All(d))[n]) else None
  {
    hide UpTo, Distinct, Occupied, Hash;
    if n < 0 { return None; }
    var foundsec, i := 0, 0;
    NoEntries(d);
    while i < d.size
      invariant i <= d.size && foundsec == |SectionNames(UpTo(d, i))| && foundsec <= n
    {
      UpToNext(d, i);
      NamesGrow(d, i + 1, d.size);
      if d.key[i].Some? && ':' !in d.key[i].value {
        foundsec := foundsec + 1;
        if foundsec > n {
          return d.key[i];
        }
      }
      i := i + 1;
    }
    name := None;
  }

  method IniparserFindEntry(d: Dictionary, entry: string) returns (found: bool)
    requires d.Valid()
    ensures found == Found(d.Contents(), entry)
  {
    var value := IniparserGetstring(d, entry, InvalidKey);
    found := value != InvalidKey;
  }

  method IniparserGetstring(d: Dictionary, key: string, def: Lookup) returns (sval: Lookup)
    requires d.Valid()
    ensures var k := Strlwc(key, ASCIILINESZ + 1);
      sval == if k in d.Contents() then AsLookup(d.Contents()[k]) else def
  {
    var lower := new Buffer(key);
    lower.Lowercase(ASCIILINESZ + 1);
    sval := d.Get(lower.text, def);
  }

  /** The loop over the keys of a section. */
  method DumpKeys(d: Dictionary, s: string) returns (out: string)
    requires d.Valid()
    ensures out == KeyLines(All(d), s)
  {
    hide UpTo, Distinct, Occupied, Hash, KeyLine, Pad30;
    out := "";
    var keym := s + ":";
    NoEntries(d);
    for j := 0 to d.size
      invariant out == KeyLines(UpTo(d, j), s)
    {
      UpToNext(d, j);
      if d.key[j].Some? && keym <= d.key[j].value {
        KeyLineIs(s, Entry(d.key[j].value, d.val[j]));
        var value := if d.val[j].Some? then d.val[j].value else "";
        out := out + (Pad30(d.key[j].value[|s| + 1..]) + " = " + value + "\n");
      }
    }
  }

  method IniparserDumpsectionIni(d: Dictionary, s: string, f: string) returns (out: string)
    requires d.Valid()
    ensures out == f + if Found(d.Contents(), s) then SectionText(All(d), s) else ""
  {
    hide All, d.Valid, d.Contents, KeyLines;
    var found := IniparserFindEntry(d, s);
    if !found { return f + ""; }
    var keys := DumpKeys(d, s);
    out := f + ("\n[" + s + "]\n" + keys + "\n");
  }

  lemma KeyLineIs(s: string, e: Entry)
    requires InSection(s, e.key)
    ensures KeyLine(s, e) == Pad30(e.key[|s| + 1..]) + " = " + (if e.val.Some? then e.val.value else "") + "\n"
  {}

  /** Writes the store to a file: its sections in slot order, each with the keys that lie in it. */
  method IniparserDumpIni(d: Dictionary) returns (f: string)
    requires d.Valid()
    ensures f == DumpText(All(d))
  {
    f := "";
    var nsec := IniparserGetnsec(d);
    if nsec < 1 {
      f := DumpPlain(d);
      return;
    }
    hide UpTo, d.Valid, d.Contents, SectionText, Found;
    ghost var es := All(d);
    ghost var names := SectionNames(es);
    AllIsContents(d);
    assert names[..0] == [];
    for i := 0 to nsec
      invariant f == SectionTexts(es, names[..i])
    {
      var secname := IniparserGetsecname(d, i);
      f := IniparserDumpsectionIni(d, secname.value, f);
      assert names[..i + 1][..i] == names[..i];
    }
    assert names[..nsec] == names;
    f := f + "\n";
  }

  method DumpPlain(d: Dictionary) returns (f: string)
    requires d.Valid()
    ensures f == PlainLines(All(d))
  {
    hide UpTo, Distinct, Occupied, Hash;
    f := "";
    NoEntries(d);
    for i := 0 to d.size
      invariant f == PlainLines(UpTo(d, i))
    {
      UpToNext(d, i);
      if d.key[i].Some? {
        f := f + (d.key[i].value + " = " + (if d.val[i].Some? then d.val[i].value else "(null)") + "\n");
      }
    }
  }
}
