/** The compressor's search for earlier occurrences: hash chains over three bytes, the longest
    match in the window, and the lazy look at the next position. */
module Matcher {
  import opened Wrappers
  import opened Inflate

  const HASH_SIZE := 16384

  /** Hash of the three bytes at position i, on 32-bit words, reduced to a table index. */
  function Hash(data: seq<Byte>, i: nat): (h: nat)
    requires i + 2 < |data|
    ensures h < HASH_SIZE
  {
    var h0 := (data[i] as int + data[i + 1] as int * 256 + data[i + 2] as int * 65536) as bv32;
    var h1 := h0 ^ (h0 << 3);
    var h2 := h1 + (h1 >> 5);
    var h3 := h2 ^ (h2 << 4);
    var h4 := h3 + (h3 >> 17);
    var h5 := h4 ^ (h4 << 25);
    var h6 := h5 + (h5 >> 6);
    (h6 & 0x3FFF) as bv14 as nat
  }

  /** The data at p and at q agree on n bytes. */
  predicate Agree(data: seq<Byte>, p: nat, q: nat, n: nat) {
    p + n <= |data| && q + n <= |data| && data[p..p + n] == data[q..q + n]
  }

  lemma AgreeMore(data: seq<Byte>, p: nat, q: nat, n: nat)
    requires Agree(data, p, q, n) && p + n < |data| && q + n < |data| && data[p + n] == data[q + n]
    ensures Agree(data, p, q, n + 1)
  {
    assert data[p..p + n + 1] == data[p..p + n] + [data[p + n]];
    assert data[q..q + n + 1] == data[q..q + n] + [data[q + n]];
  }

  /** The length of the common run from p and q, of which n bytes are known; at most 258. */
  function MatchLengthFrom(data: seq<Byte>, p: nat, q: nat, n: nat): (r: nat)
    requires p <= q <= |data| && n <= 258 && Agree(data, p, q, n)
    ensures n <= r <= 258 && Agree(data, p, q, r)
    ensures r == 258 || q + r == |data| || data[p + r] != data[q + r]
    decreases 258 - n
  {
    if q + n < |data| && n < 258 && data[p + n] == data[q + n] then
      AgreeMore(data, p, q, n);
      MatchLengthFrom(data, p, q, n + 1)
    else n
  }

  function MatchLength(data: seq<Byte>, p: nat, q: nat): (r: nat)
    requires p <= q <= |data|
  {
    MatchLengthFrom(data, p, q, 0)
  }

  lemma AgreeNothing(data: seq<Byte>, p: nat, q: nat)
    requires p <= q <= |data|
    ensures Agree(data, p, q, 0)
  {}

  method CountMatch(data: seq<Byte>, p: nat, q: nat) returns (n: nat)
    requires p <= q <= |data|
    ensures n == MatchLength(data, p, q)
  {
    hide Agree;
    n := 0;
    assert Agree(data, p, q, 0) by { AgreeNothing(data, p, q); }
    while q + n < |data| && n < 258
      invariant n <= 258 && Agree(data, p, q, n)
      invariant MatchLength(data, p, q) == MatchLengthFrom(data, p, q, n)
      decreases 258 - n
    {
      if data[p + n] != data[q + n] { break; }
      AgreeMore(data, p, q, n);
      n := n + 1;
    }
  }

  /** A candidate lies in the window of position i. */
  predicate InWindow(p: nat, i: nat) { p > i - 32768 }

  predicate Below(chain: seq<nat>, i: nat) {
    forall j :: 0 <= j < |chain| ==> chain[j] < i
  }

  /** Entry k is the last one among the longest matches of at least three bytes in the window of i. */
  ghost predicate LastLongest(data: seq<Byte>, i: nat, chain: seq<nat>, k: nat, p: nat, best: nat)
    requires i <= |data| && Below(chain, i)
  {
    && k < |chain| && chain[k] == p && InWindow(p, i) && MatchLength(data, p, i) == best >= 3
    && (forall j :: 0 <= j < |chain| && InWindow(chain[j], i) ==> MatchLength(data, chain[j], i) <= best)
    && (forall j :: k < j < |chain| && InWindow(chain[j], i) ==> MatchLength(data, chain[j], i) < best)
  }

  ghost predicate BestMatch(data: seq<Byte>, i: nat, chain: seq<nat>, p: nat, best: nat)
    requires i <= |data| && Below(chain, i)
  {
    exists k: nat :: LastLongest(data, i, chain, k, p, best)
  }

  /** No entry in the window matches three bytes. */
  ghost predicate NoMatch(data: seq<Byte>, i: nat, chain: seq<nat>)
    requires i <= |data| && Below(chain, i)
  {
    forall j :: 0 <= j < |chain| && InWindow(chain[j], i) ==> MatchLength(data, chain[j], i) < 3
  }

  /** The match the search ends with: an entry replaces the best one so far when it is at least as long. */
  function Pick(data: seq<Byte>, i: nat, chain: seq<nat>): (m: Option<(nat, nat)>)
    requires i <= |data| && Below(chain, i)
    ensures m.Some? ==> m.value.0 < i && InWindow(m.value.0, i) && MatchLength(data, m.value.0, i) == m.value.1 >= 3
  {
    if chain == [] then None
    else
      var before, p := Pick(data, i, chain[..|chain| - 1]), chain[|chain| - 1];
      var length := MatchLength(data, p, i);
      if InWindow(p, i) && length >= (if before.Some? then before.value.1 else 3) then Some((p, length)) else before
  }

  lemma PickNext(data: seq<Byte>, i: nat, chain: seq<nat>, j: nat)
    requires i <= |data| && Below(chain, i) && j < |chain|
    ensures var before, length := Pick(data, i, chain[..j]), MatchLength(data, chain[j], i);
      Pick(data, i, chain[..j + 1])
      == if InWindow(chain[j], i) && length >= (if before.Some? then before.value.1 else 3)
         then Some((chain[j], length)) else before
  {
    assert chain[..j + 1][..j] == chain[..j];
  }

  /** The search as one value. */
  function Found(best: nat, bestloc: Option<nat>): Option<(nat, nat)> {
    if bestloc.Some? then Some((bestloc.value, best)) else None
  }

  method FindMatch(data: seq<Byte>, i: nat, chain: seq<nat>) returns (best: nat, bestloc: Option<nat>)
    requires i <= |data| && Below(chain, i)
    ensures bestloc.Some? ==> BestMatch(data, i, chain, bestloc.value, best)
    ensures bestloc.None? ==> NoMatch(data, i, chain)
    ensures Found(best, bestloc) == Pick(data, i, chain)
  {
    hide MatchLength, Pick;
    best, bestloc := 3, None;
    assert Pick(data, i, chain[..0]) == None by { PickNothing(data, i); assert chain[..0] == []; }
    ghost var at := 0;
    for j := 0 to |chain|
      invariant bestloc.Some? ==> at < j && LastLongest(data, i, chain[..j], at, bestloc.value, best)
      invariant bestloc.None? ==> best == 3 && NoMatch(data, i, chain[..j])
      invariant Found(best, bestloc) == Pick(data, i, chain[..j])
    {
      PickNext(data, i, chain, j);
      if chain[j] > i - 32768 {
        var d := CountMatch(data, chain[j], i);
        if d >= best {
          best, bestloc, at := d, Some(chain[j]), j;
        }
      }
    }
    assert chain[..|chain|] == chain;
  }

  lemma PickNothing(data: seq<Byte>, i: nat)
    requires i <= |data|
    ensures Pick(data, i, []) == None
  {}

  /** Some entry matches longer at the next position. */
  ghost predicate Better(data: seq<Byte>, i: nat, chain: seq<nat>, best: nat)
    requires i + 1 <= |data| && Below(chain, i + 1)
  {
    exists j :: 0 <= j < |chain| && InWindow(chain[j], i + 1) && MatchLength(data, chain[j], i + 1) > best
  }

  /** Lazy matching: does some candidate match longer at the next position? */
  method NextIsBetter(data: seq<Byte>, i: nat, chain: seq<nat>, best: nat) returns (better: bool)
    requires i + 1 <= |data| && Below(chain, i + 1)
    ensures better <==> Better(data, i, chain, best)
  {
    hide MatchLength;
    for j := 0 to |chain|
      invariant forall k :: 0 <= k < j && InWindow(chain[k], i + 1) ==> MatchLength(data, chain[k], i + 1) <= best
    {
      if chain[j] > i - 32767 {
        var e := CountMatch(data, chain[j], i + 1);
        if e > best {
          return true;
        }
      }
    }
    return false;
  }

  /** A chain after position i joined it: the older half goes when it is full. */
  function Pushed(chain: seq<nat>, quality: nat, i: nat): (r: seq<nat>)
    requires quality > 0
  {
    (if |chain| == 2 * quality then chain[quality..] else chain) + [i]
  }

  method PushPosition(table: array<seq<nat>>, h: nat, quality: nat, i: nat)
    requires h < table.Length && quality > 0
    modifies table
    ensures table[..] == old(table[..])[h := Pushed(old(table[h]), quality, i)]
  {
    if |table[h]| == 2 * quality {
      table[h] := table[h][quality..];
    }
    table[h] := table[h] + [i];
  }
}
