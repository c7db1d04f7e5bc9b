/** The slot table of keys and values: three parallel arrays with holes, searched from the front and
    filled from slot n on with wrap-around. It refines a map from keys to optional values. */
module Dictionary {
  import opened Wrappers

  const DICTMINSZ: nat := 128

  // ---------- The hash ----------

  function Character(c: char): bv32 { (c as int) as bv32 }

  function HashStep(h: bv32, c: bv32): bv32 {
    var sum := h + c;
    var spread := sum + (sum << 10);
    spread ^ (spread >> 6)
  }

  function HashEnd(h: bv32): bv32 {
    var a := h + (h << 3);
    var b := a ^ (a >> 11);
    b + (b << 15)
  }

  function HashChars(key: string): bv32 {
    if key == [] then 0 else HashStep(HashChars(key[..|key| - 1]), Character(key[|key| - 1]))
  }

  function Hash(key: string): bv32 { HashEnd(HashChars(key)) }

  method DictionaryHash(key: string) returns (hash: bv32)
    ensures hash == Hash(key)
  {
    hide HashStep, HashEnd, Character;
    hash := 0;
    for i := 0 to |key|
      invariant hash == HashChars(key[..i])
    {
      assert key[..i + 1][..i] == key[..i];
      hash := HashStep(hash, Character(key[i]));
    }
    assert key[..|key|] == key;
    hash := HashEnd(hash);
  }

  /** A known value of this hash. */
  lemma HashOfOneLetter()
    ensures Hash("a") == 0xCA2E9442
  {
    assert "a"[..0] == "";
    assert HashChars("a") == HashStep(0, 97);
  }

  // ---------- Slots ----------

  type Keys = seq<Option<string>>

  function Occupied(keys: Keys): (n: nat)
    ensures n <= |keys|
  {
    if keys == [] then 0 else Occupied(keys[..|keys| - 1]) + if keys[|keys| - 1].Some? then 1 else 0
  }

  ghost predicate Distinct(keys: Keys) {
    forall i, j :: 0 <= i < j < |keys| && keys[i].Some? ==> keys[i] != keys[j]
  }

  /** The map a table of slots stands for. */
  ghost function Table(keys: Keys, vals: seq<Option<string>>): map<string, Option<string>>
    requires |keys| == |vals| && Distinct(keys)
  {
    map i | 0 <= i < |keys| && keys[i].Some? :: keys[i].value := vals[i]
  }

  ghost predicate InSlot(keys: Keys, k: string) { exists i :: 0 <= i < |keys| && keys[i] == Some(k) }

  /** The map holds exactly the entries of the slots. */
  ghost predicate Holds(keys: Keys, vals: seq<Option<string>>, m: map<string, Option<string>>)
    requires |keys| == |vals|
  {
    (forall i :: 0 <= i < |keys| && keys[i].Some? ==> keys[i].value in m && m[keys[i].value] == vals[i])
    && forall k :: k in m ==> InSlot(keys, k)
  }

  lemma TableHolds(keys: Keys, vals: seq<Option<string>>)
    requires |keys| == |vals| && Distinct(keys)
    ensures Holds(keys, vals, Table(keys, vals))
  {
    var m := Table(keys, vals);
    forall k | k in m
      ensures InSlot(keys, k)
    {
      var i :| 0 <= i < |keys| && keys[i].Some? && keys[i].value == k;
      assert keys[i] == Some(k);
    }
  }

  lemma HoldsIsTable(keys: Keys, vals: seq<Option<string>>, m: map<string, Option<string>>)
    requires |keys| == |vals| && Distinct(keys) && Holds(keys, vals, m)
    ensures m == Table(keys, vals)
  {
    TableHolds(keys, vals);
    hide Table, Distinct;
    var t := Table(keys, vals);
    forall k | k in m || k in t
      ensures k in m && k in t && m[k] == t[k]
    {
      assert InSlot(keys, k);
      var i :| 0 <= i < |keys| && keys[i] == Some(k);
      assert keys[i].value == k;
    }
  }

  lemma {:induction false} OccupiedChange(keys: Keys, i: nat, k: Option<string>)
    requires i < |keys|
    ensures Occupied(keys[i := k]) == Occupied(keys) - (if keys[i].Some? then 1 else 0) + (if k.Some? then 1 else 0)
  {
    var last := |keys| - 1;
    if i < last {
      assert keys[i := k][..last] == keys[..last][i := k];
      OccupiedChange(keys[..last], i, k);
    } else {
      assert keys[i := k][..last] == keys[..last];
    }
  }

  lemma {:induction false} OccupiedGrows(keys: Keys, more: Keys)
    requires forall i :: 0 <= i < |more| ==> more[i].None?
    ensures Occupied(keys + more) == Occupied(keys)
  {
    if more == [] {
      assert keys + more == keys;
    } else {
      var last := |more| - 1;
      assert (keys + more)[..|keys + more| - 1] == keys + more[..last];
      OccupiedGrows(keys, more[..last]);
    }
  }

  /** A table that is not full has an empty slot. */
  lemma {:induction false} EmptySlot(keys: Keys) returns (e: nat)
    requires Occupied(keys) < |keys|
    ensures e < |keys| && keys[e].None?
  {
    var last := |keys| - 1;
    if keys[last].None? {
      e := last;
    } else {
      e := EmptySlot(keys[..last]);
    }
  }

  lemma {:induction false} NoneOccupied(keys: Keys)
    requires forall i :: 0 <= i < |keys| ==> keys[i].None?
    ensures Occupied(keys) == 0
  {
    if keys != [] { NoneOccupied(keys[..|keys| - 1]); }
  }

  /** The entry counter is the size of the map. */
  lemma {:induction false} OccupiedIsSize(keys: Keys, vals: seq<Option<string>>)
    requires |keys| == |vals| && Distinct(keys)
    ensures |Table(keys, vals)| == Occupied(keys)
  {
    if keys == [] {
      assert Table(keys, vals) == map[];
    } else {
      var last := |keys| - 1;
      OccupiedIsSize(keys[..last], vals[..last]);
      TableLast(keys, vals);
    }
  }

  lemma TableLast(keys: Keys, vals: seq<Option<string>>)
    requires |keys| == |vals| > 0 && Distinct(keys)
    ensures var last := |keys| - 1;
      var before := Table(keys[..last], vals[..last]);
      if keys[last].None? then Table(keys, vals) == before
      else keys[last].value !in before && Table(keys, vals) == before[keys[last].value := vals[last]]
  {
    var last := |keys| - 1;
    var front := keys[..last];
    var before := Table(front, vals[..last]);
    TableHolds(front, vals[..last]);
    hide Table;
    var k := keys[last];
    var m := if k.None? then before else before[k.value := vals[last]];
    forall q | q in m
      ensures InSlot(keys, q)
    {
      if q in before {
        var i :| 0 <= i < |front| && front[i] == Some(q);
        assert keys[i] == Some(q);
      } else {
        assert keys[last] == Some(q);
      }
    }
    forall i | 0 <= i < |keys| && keys[i].Some?
      ensures keys[i].value in m && m[keys[i].value] == vals[i]
    {
      if i < last { assert front[i] == keys[i] && vals[..last][i] == vals[i]; }
    }
    HoldsIsTable(keys, vals, m);
  }

  /** What a lookup returns: null, a string, or the value that marks an invalid key. */
  datatype Lookup = Null | Str(text: string) | InvalidKey

  function AsLookup(v: Option<string>): Lookup { if v.None? then Null else Str(v.value) }

  /** A zeroed array of twice the length that starts with the old elements. */
  method Enlarge<T(0)>(a: array<T>, zero: T) returns (b: array<T>)
    ensures fresh(b) && b.Length == 2 * a.Length && b[..a.Length] == a[..]
    ensures forall i :: a.Length <= i < b.Length ==> b[i] == zero
  {
    b := new T[2 * a.Length](_ => zero);
    forall i | 0 <= i < a.Length { b[i] := a[i]; }
  }

  class Dictionary {
    var n: nat
    var size: nat
    var val: array<Option<string>>
    var key: array<Option<string>>
    var hash: array<bv32>

    ghost function Arrays(): set<object>
      reads this
    {
      {val as object, key as object, hash as object}
    }

    ghost predicate Valid()
      reads this, val, key, hash
    {
      size == val.Length == key.Length == hash.Length && size >= DICTMINSZ
      && val != key && (hash as object) != val && (hash as object) != key
      && n == Occupied(key[..]) && Distinct(key[..])
      && forall i :: 0 <= i < size && key[i].Some? ==> hash[i] == Hash(key[i].value)
    }

    ghost function Contents(): map<string, Option<string>>
      requires Valid()
      reads this, val, key, hash
    {
      Table(key[..], val[..])
    }

    constructor (wanted: nat)
      ensures Valid() && Contents() == map[] && n == 0
      ensures fresh(Arrays())
    {
      var slots := if wanted < DICTMINSZ then DICTMINSZ else wanted;
      n := 0;
      size := slots;
      val := new Option<string>[slots](_ => None);
      key := new Option<string>[slots](_ => None);
      hash := new bv32[slots](_ => 0);
      new;
      NoneOccupied(key[..]);
    }

    /** The slot that holds the key, or the size when none does. */
    method Find(k: string, h: bv32) returns (i: nat)
      requires Valid() && h == Hash(k)
      ensures i <= size && (i < size ==> key[i] == Some(k))
      ensures i == size <==> k !in Contents()
    {
      hide Hash;
      i := 0;
      while i < size
        invariant i <= size && forall j :: 0 <= j < i ==> key[j] != Some(k)
      {
        if key[i].Some? && hash[i] == h && key[i].value == k { break; }
        i := i + 1;
      }
    }

    method Get(k: string, def: Lookup) returns (r: Lookup)
      requires Valid()
      ensures r == if k in Contents() then AsLookup(Contents()[k]) else def
    {
      var h := DictionaryHash(k);
      var i := Find(k, h);
      r := if i < size then AsLookup(val[i]) else def;
    }

    method Grow()
      requires Valid()
      modifies this`size, this`val, this`key, this`hash
      ensures Valid() && Contents() == old(Contents()) && size == 2 * old(size)
      ensures fresh(Arrays())
    {
      hide Hash, Table, Distinct, Occupied;
      ghost var keys, vals := key[..], val[..];
      var newVal := Enlarge(val, None);
      var newKey := Enlarge(key, None);
      var newHash := Enlarge(hash, 0);
      TableGrow(keys, vals, newKey[size..], newVal[size..]);
      assert newKey[..] == keys + newKey[size..] && newVal[..] == vals + newVal[size..];
      size := size * 2;
      val, key, hash := newVal, newKey, newHash;
    }

    /** The slot the search for an empty one ends at; it starts at n and wraps around. */
    method FreeSlot() returns (i: nat)
      requires Valid() && n < size
      ensures i < size && key[i].None?
    {
      hide Hash, Distinct;
      ghost var e := EmptySlot(key[..]);
      i := n;
      while key[i].Some?
        invariant i < size
        decreases if i <= e then e - i else size - i + e
      {
        i := i + 1;
        if i == size { i := 0; }
      }
    }

    /** Puts an entry into an empty slot. */
    method Fill(i: nat, k: string, v: Option<string>, h: bv32)
      requires Valid() && i < size && key[i].None? && k !in Contents() && h == Hash(k)
      modifies this`n, val, key, hash
      ensures Valid() && Contents() == old(Contents())[k := v]
    {
      hide Hash, Table, Distinct, Occupied;
      ghost var keys, vals := key[..], val[..];
      OccupiedChange(keys, i, Some(k));
      TableFill(keys, vals, i, k, v);
      key[i] := Some(k);
      val[i] := v;
      hash[i] := h;
      n := n + 1;
      assert key[..] == keys[i := Some(k)];
      assert val[..] == vals[i := v];
    }

    method Set(k: string, v: Option<string>)
      requires Valid()
      modifies this, val, key, hash
      ensures Valid() && Contents() == old(Contents())[k := v]
      ensures fresh(Arrays() - old(Arrays()))
    {
      hide Hash;
      var h := DictionaryHash(k);
      if n > 0 {
        var i := Find(k, h);
        if i < size {
          TableReplace(key[..], val[..], i, v);
          ghost var vals := val[..];
          val[i] := v;
          assert val[..] == vals[i := v];
          return;
        }
      } else {
        NothingStored(key[..]);
      }
      if n == size { Grow(); } else { NotFull(); }
      var i := FreeSlot();
      Fill(i, k, v, h);
    }

    lemma NotFull()
      requires Valid() && n != size
      ensures n < size
    {}

    method Unset(k: string)
      requires Valid()
      modifies this`n, val, key, hash
      ensures Valid() && Contents() == old(Contents()) - {k}
    {
      hide Hash, Table, Distinct, Occupied;
      var h := DictionaryHash(k);
      var i := Find(k, h);
      if i >= size { return; }
      ghost var keys, vals := key[..], val[..];
      OccupiedChange(keys, i, None);
      TableErase(keys, vals, i);
      key[i] := None;
      if val[i].Some? { val[i] := None; }
      hash[i] := 0;
      n := n - 1;
      assert key[..] == keys[i := None] && val[..] == vals[i := None];
    }
  }

  lemma {:induction false} NothingStored(keys: Keys)
    requires Occupied(keys) == 0
    ensures forall i :: 0 <= i < |keys| ==> keys[i].None?
  {
    if keys != [] {
      var last := |keys| - 1;
      NothingStored(keys[..last]);
      forall i | 0 <= i < |keys|
        ensures keys[i].None?
      {
        if i < last { assert keys[i] == keys[..last][i]; }
      }
    }
  }

  lemma TableReplace(keys: Keys, vals: seq<Option<string>>, i: nat, v: Option<string>)
    requires |keys| == |vals| && Distinct(keys) && i < |keys| && keys[i].Some?
    ensures Table(keys, vals[i := v]) == Table(keys, vals)[keys[i].value := v]
  {
    TableHolds(keys, vals);
    var m := Table(keys, vals)[keys[i].value := v];
    hide Table;
    HoldsIsTable(keys, vals[i := v], m);
  }

  lemma TableFill(keys: Keys, vals: seq<Option<string>>, i: nat, k: string, v: Option<string>)
    requires |keys| == |vals| && Distinct(keys) && i < |keys| && keys[i].None? && k !in Table(keys, vals)
    ensures Distinct(keys[i := Some(k)])
    ensures Table(keys[i := Some(k)], vals[i := v]) == Table(keys, vals)[k := v]
  {
    TableHolds(keys, vals);
    var m := Table(keys, vals)[k := v];
    hide Table;
    var filled := keys[i := Some(k)];
    forall q | q in m
      ensures InSlot(filled, q)
    {
      if q == k {
        assert filled[i] == Some(k);
      } else {
        assert InSlot(keys, q);
        var j :| 0 <= j < |keys| && keys[j] == Some(q);
        assert filled[j] == Some(q);
      }
    }
    HoldsIsTable(filled, vals[i := v], m);
  }

  lemma TableErase(keys: Keys, vals: seq<Option<string>>, i: nat)
    requires |keys| == |vals| && Distinct(keys) && i < |keys| && keys[i].Some?
    ensures Distinct(keys[i := None])
    ensures Table(keys[i := None], vals[i := None]) == Table(keys, vals) - {keys[i].value}
  {
    TableHolds(keys, vals);
    var m := Table(keys, vals) - {keys[i].value};
    hide Table;
    var erased := keys[i := None];
    forall q | q in m
      ensures InSlot(erased, q)
    {
      assert InSlot(keys, q);
      var j :| 0 <= j < |keys| && keys[j] == Some(q);
      assert erased[j] == Some(q);
    }
    HoldsIsTable(erased, vals[i := None], m);
  }

  /** Empty slots behind the others change nothing. */
  lemma TableGrow(keys: Keys, vals: seq<Option<string>>, more: Keys, moreVals: seq<Option<string>>)
    requires |keys| == |vals| && Distinct(keys) && |more| == |moreVals|
    requires forall i :: 0 <= i < |more| ==> more[i].None?
    ensures Distinct(keys + more) && Table(keys + more, vals + moreVals) == Table(keys, vals)
    ensures Occupied(keys + more) == Occupied(keys)
  {
    OccupiedGrows(keys, more);
    TableHolds(keys, vals);
    var m := Table(keys, vals);
    hide Table;
    forall q | q in m
      ensures InSlot(keys + more, q)
    {
      assert InSlot(keys, q);
      var j :| 0 <= j < |keys| && keys[j] == Some(q);
      assert (keys + more)[j] == Some(q);
    }
    HoldsIsTable(keys + more, vals + moreVals, m);
  }
}
