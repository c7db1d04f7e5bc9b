/** The zlib compressor of the PNG writer: one fixed-Huffman block of literals and matches, stored
    blocks when that came out larger, and the Adler-32 checksum. */
module Deflate {
  import opened Bits
  import opened Wrappers
  import opened Inflate
  import opened DeflateFormat
  import opened BitOutput
  import opened Matcher
  import opened Tokens

  // ---------- Code tables with their sentinels ----------

  const LENGTHC: seq<nat> := LENGTH_BASE + [259]
  const DISTC: seq<nat> := DISTANCE_BASE + [32768]

  function LengthStart(k: nat): nat
    requires k < 30
  {
    LENGTHC[k]
  }

  function DistanceStart(k: nat): nat
    requires k < 31
  {
    DISTC[k]
  }

  lemma LengthTable(k: nat, length: nat)
    requires k < 29 && LengthStart(k) <= length < LengthStart(k + 1)
    ensures IsLengthCode(k, length) && LengthExtra(k) <= 5
  {
    hide Pow2;
    SmallPowers();
    assert k == 0 || k == 1 || k == 2 || k == 3 || k == 4 || k == 5 || k == 6 || k == 7 || k == 8 || k == 9
        || k == 10 || k == 11 || k == 12 || k == 13 || k == 14 || k == 15 || k == 16 || k == 17 || k == 18 || k == 19
        || k == 20 || k == 21 || k == 22 || k == 23 || k == 24 || k == 25 || k == 26 || k == 27 || k == 28;
  }

  lemma DistanceTable(k: nat, distance: nat)
    requires k < 30 && DistanceStart(k) <= distance < DistanceStart(k + 1)
    ensures InDistanceCode(k, distance) && DistanceExtra(k) <= 13
  {
    hide Pow2;
    SmallPowers();
    assert k == 0 || k == 1 || k == 2 || k == 3 || k == 4 || k == 5 || k == 6 || k == 7 || k == 8 || k == 9
        || k == 10 || k == 11 || k == 12 || k == 13 || k == 14 || k == 15 || k == 16 || k == 17 || k == 18 || k == 19
        || k == 20 || k == 21 || k == 22 || k == 23 || k == 24 || k == 25 || k == 26 || k == 27 || k == 28 || k == 29;
  }

  lemma TableEnds()
    ensures LengthStart(0) == 3 && LengthStart(29) == 259 && DistanceStart(0) == 1 && DistanceStart(30) == 32768
  {}

  method LengthCode(length: nat) returns (k: nat)
    requires 3 <= length <= 258
    ensures IsLengthCode(k, length) && LengthExtra(k) <= 5
  {
    hide LengthStart, DistanceStart, IsLengthCode, LengthExtra;
    k := 0;
    TableEnds();
    while length > LengthStart(k + 1) - 1
      invariant k < 29 && LengthStart(k) <= length
      decreases 29 - k
    {
      k := k + 1;
    }
    LengthTable(k, length);
  }

  method DistanceCode(distance: nat) returns (k: nat)
    requires 1 <= distance <= 32767
    ensures InDistanceCode(k, distance) && DistanceExtra(k) <= 13
  {
    hide LengthStart, DistanceStart, InDistanceCode, DistanceExtra;
    k := 0;
    TableEnds();
    while distance > DistanceStart(k + 1) - 1
      invariant k < 30 && DistanceStart(k) <= distance
      decreases 30 - k
    {
      k := k + 1;
    }
    DistanceTable(k, distance);
  }

  // ---------- The fixed-Huffman block ----------

  method PutLength(w: BitWriter, length: nat) returns (ghost k: nat)
    requires w.Valid() && 3 <= length <= 258
    modifies w
    ensures w.Valid() && w.out[..2] == old(w.out[..2]) && IsLengthCode(k, length)
    ensures w.Stream() == old(w.Stream()) + (SymbolBits(257 + k) + LowBits(length - LengthBase(k), LengthExtra(k)))
  {
    hide Pow2, HighBits, LowBits, SymbolBits, ByteBits, LengthBase, LengthExtra, DistanceBase, DistanceExtra;
    var j := LengthCode(length);
    k := j;
    w.Huff(j + 257);
    EmptyBits(length - LengthBase(j));
    if LengthExtra(j) != 0 {
      w.Add(length - LengthBase(j), LengthExtra(j));
    }
  }

  method PutDistance(w: BitWriter, distance: nat) returns (ghost d: nat)
    requires w.Valid() && 1 <= distance <= 32767
    modifies w
    ensures w.Valid() && w.out[..2] == old(w.out[..2]) && InDistanceCode(d, distance)
    ensures w.Stream() == old(w.Stream()) + (HighBits(d, 5) + LowBits(distance - DistanceBase(d), DistanceExtra(d)))
  {
    hide Pow2, HighBits, LowBits, ByteBits, DistanceBase, DistanceExtra;
    var j := DistanceCode(distance);
    d := j;
    SmallPowers();
    w.HuffA(j, 5);
    EmptyBits(distance - DistanceBase(j));
    if DistanceExtra(j) != 0 {
      w.Add(distance - DistanceBase(j), DistanceExtra(j));
    }
  }

  /** Writes one match. */
  method PutMatch(w: BitWriter, length: nat, distance: nat) returns (ghost bits: seq<bool>)
    requires w.Valid() && 3 <= length <= 258 && 1 <= distance <= 32767
    modifies w
    ensures w.Valid() && w.out[..2] == old(w.out[..2])
    ensures Spells(bits, Match(length, distance)) && w.Stream() == old(w.Stream()) + bits
  {
    hide Pow2, HighBits, LowBits, SymbolBits, ByteBits, LengthBase, LengthExtra, DistanceBase, DistanceExtra;
    ghost var k := PutLength(w, length);
    ghost var d := PutDistance(w, distance);
    bits := MatchBits(length, k, distance, d);
  }

  // ---------- The token at a position ----------

  /** The chain that position i hashes to. */
  function Chain(table: array<seq<nat>>, data: seq<Byte>, i: nat): seq<nat>
    requires i + 2 < |data| && table.Length == HASH_SIZE
    reads table
  {
    table[Hash(data, i)]
  }

  /** The best match of the chain, unless there is none or the next position has a longer one. */
  ghost predicate Chosen(data: seq<Byte>, i: nat, chain: seq<nat>, next: seq<nat>, best: nat, bestloc: Option<nat>) {
    && i + 1 <= |data| && Below(chain, i) && Below(next, i + 1)
    && if bestloc.Some? then BestMatch(data, i, chain, bestloc.value, best) && !Better(data, i, next, best)
       else NoMatch(data, i, chain) || (HasBest(data, i, chain, best) && Better(data, i, next, best))
  }

  /** Hashes position i, finds the best match there unless the next position has a longer one, and
      records i in its chain. */
  method ChooseMatch(data: seq<Byte>, i: nat, table: array<seq<nat>>, quality: nat)
      returns (best: nat, bestloc: Option<nat>)
    requires i + 3 < |data| && table.Length == HASH_SIZE && quality > 0 && Ready(table[..], i)
    modifies table
    ensures table[..] == Joined(data, i, old(table[..]), quality)
    ensures Chosen(data, i, old(Chain(table, data, i)), Chain(table, data, i + 1), best, bestloc)
    ensures Found(best, bestloc) == Choice(data, i, old(Chain(table, data, i)), Chain(table, data, i + 1))
  {
    hide Hash, MatchLength, Agree, BestMatch, NoMatch, Better, HasBest, Pick;
    var h := Hash(data, i);
    best, bestloc := FindMatch(data, i, table[h]);
    if bestloc.Some? { IsBest(data, i, table[h], bestloc.value, best); }
    PushPosition(table, h, quality, i);
    if bestloc.Some? {
      h := Hash(data, i + 1);
      var better := NextIsBetter(data, i, table[h], best);
      if better {
        bestloc := None;
      }
    }
  }

  ghost predicate HasBest(data: seq<Byte>, i: nat, chain: seq<nat>, best: nat)
    requires i <= |data| && Below(chain, i)
  {
    exists p :: BestMatch(data, i, chain, p, best)
  }

  lemma IsBest(data: seq<Byte>, i: nat, chain: seq<nat>, p: nat, best: nat)
    requires i <= |data| && Below(chain, i) && BestMatch(data, i, chain, p, best)
    ensures HasBest(data, i, chain, best)
  {}

  /** One turn of the main loop: writes the token at position i. */
  method WriteToken(w: BitWriter, data: seq<Byte>, i: nat, table: array<seq<nat>>, quality: nat)
      returns (next: nat, ghost t: Token, ghost bits: seq<bool>)
    requires w.Valid() && i + 3 < |data| && table.Length == HASH_SIZE && quality > 0 && Ready(table[..], i)
    modifies w, table
    ensures w.Valid() && w.out[..2] == old(w.out[..2])
    ensures t == TokenAt(data, i, old(table[..]), quality) && table[..] == Joined(data, i, old(table[..]), quality)
    ensures next == i + Width(t) && Spells(bits, t) && w.Stream() == old(w.Stream()) + bits
  {
    hide Pow2, SymbolBits, ByteBits, Chosen, Choice, Joined, Pick, Ready, Hash, TokenAt, Fits, Better;
    ghost var before := table[..];
    t := TokenAt(data, i, before, quality);
    var best, bestloc := ChooseMatch(data, i, table, quality);
    TokenIs(data, i, before, table[..], quality, best, bestloc);
    if bestloc.Some? {
      bits := PutMatch(w, best, i - bestloc.value);
      next := i + best;
    } else {
      w.HuffB(data[i]);
      bits := SymbolBits(data[i]);
      next := i + 1;
    }
  }

  lemma TokenIs(data: seq<Byte>, i: nat, before: seq<seq<nat>>, after: seq<seq<nat>>, quality: nat, best: nat,
                bestloc: Option<nat>)
    requires i + 3 < |data| && quality > 0 && Ready(before, i) && after == Joined(data, i, before, quality)
    requires Found(best, bestloc) == Choice(data, i, before[Hash(data, i)], after[Hash(data, i + 1)])
    ensures var t := TokenAt(data, i, before, quality);
      if bestloc.None? then t == Literal(data[i])
      else bestloc.value < i && 3 <= best <= 258 && i - bestloc.value <= 32767 && t == Match(best, i - bestloc.value)
  {
    hide Choice, Joined, Hash, Agree;
  }

  /** Everything up to and including the end-of-block code. */
  method WriteFixedBlock(w: BitWriter, data: seq<Byte>, quality: nat) returns (ghost block: seq<bool>)
    requires w.Valid() && quality > 0 && w.Stream() == []
    modifies w
    ensures w.Valid() && w.out[..2] == old(w.out[..2])
    ensures Emits(block, data) && SpellsAll(block, AllTokens(data, quality))
    ensures w.Stream() == [true, true, false] + block + SymbolBits(256)
  {
    hide Pow2, Emits, SymbolBits, MatchBits, CopyMatch, Agree, Hash, SpellsAll, Spells, TokensFrom, TokenAt, Joined,
      LowBits, ByteBits, Ready, Fits;
    SmallPowers();
    w.Add(1, 1);
    w.Add(1, 2);
    assert w.Stream() == [true, true, false] by { FixedHeader(); }
    block := [];
    EmitsNothing();
    var table := new seq<nat>[HASH_SIZE](_ => []);
    assert table[..] == NoChains();
    var i := 0;
    ghost var tokens := [];
    NothingSpelled(data, quality);
    while i + 3 < |data|
      invariant i <= |data| && w.Valid() && w.out[..2] == old(w.out[..2])
      invariant table.Length == HASH_SIZE && fresh(table) && Ready(table[..], i)
      invariant Emits(block, data[..i]) && w.Stream() == [true, true, false] + block
      invariant SpellsAll(block, tokens) && tokens + TokensFrom(data, i, table[..], quality) == AllTokens(data, quality)
    {
      ghost var before, at := table[..], i;
      ghost var t, bits;
      i, t, bits := WriteToken(w, data, i, table, quality);
      NextToken(data, at, before, quality, tokens);
      TokenEmits(block, bits, data, at, t);
      SpellsMore(block, tokens, bits, t);
      block, tokens := block + bits, tokens + [t];
    }
    LastTokens(data, i, table[..], quality);
    ghost var start := i;
    while i < |data|
      invariant start <= i <= |data| && w.Valid() && w.out[..2] == old(w.out[..2])
      invariant Emits(block, data[..i]) && w.Stream() == [true, true, false] + block
      invariant SpellsAll(block, tokens) && tokens + Literals(data[i..]) == AllTokens(data, quality)
    {
      w.HuffB(data[i]);
      LiteralNext(data, i, tokens);
      SpellsMore(block, tokens, SymbolBits(data[i]), Literal(data[i])) by { LiteralSpells(data[i]); }
      TokenEmits(block, SymbolBits(data[i]), data, i, Literal(data[i])) by { LiteralFits(data, i); }
      block, tokens := block + SymbolBits(data[i]), tokens + [Literal(data[i])];
      i := i + 1;
    }
    assert data[..i] == data && tokens + Literals(data[i..]) == tokens;
    w.Huff(256);
  }

  lemma NothingSpelled(data: seq<Byte>, quality: nat)
    requires quality > 0
    ensures SpellsAll([], []) && [] + AllTokens(data, quality) == AllTokens(data, quality) && data[..0] == []
  {}

  lemma NextToken(data: seq<Byte>, i: nat, table: seq<seq<nat>>, quality: nat, tokens: seq<Token>)
    requires i + 3 < |data| && quality > 0 && Ready(table, i)
    ensures var t, next := TokenAt(data, i, table, quality), Joined(data, i, table, quality);
      && Fits(data, i, t) && 0 < Width(t) && i + Width(t) <= |data| && Ready(next, i + 1) && Ready(next, i + Width(t))
      && tokens + TokensFrom(data, i, table, quality)
         == tokens + [t] + TokensFrom(data, i + Width(t), next, quality)
  {
    hide TokenAt, Joined, Ready;
    var t, next := TokenAt(data, i, table, quality), Joined(data, i, table, quality);
    ReadyLater(next, i + 1, i + Width(t));
    assert TokensFrom(data, i, table, quality) == [t] + TokensFrom(data, i + Width(t), next, quality);
  }

  lemma LastTokens(data: seq<Byte>, i: nat, table: seq<seq<nat>>, quality: nat)
    requires i <= |data| <= i + 3 && quality > 0 && Ready(table, i)
    ensures TokensFrom(data, i, table, quality) == Literals(data[i..])
  {}

  lemma LiteralNext(data: seq<Byte>, i: nat, tokens: seq<Token>)
    requires i < |data|
    ensures tokens + Literals(data[i..]) == tokens + [Literal(data[i])] + Literals(data[i + 1..])
  {
    assert Literals(data[i..]) == [Literal(data[i])] + Literals(data[i + 1..]);
  }

  lemma LiteralSpells(b: Byte)
    ensures Spells(SymbolBits(b), Literal(b))
  {}

  lemma LiteralFits(data: seq<Byte>, i: nat)
    requires i < |data|
    ensures Fits(data, i, Literal(data[i])) && Spells(SymbolBits(data[i]), Literal(data[i]))
  {}

  lemma FixedHeader()
    ensures [] + LowBits(1, 1) + LowBits(1, 2) == [true, true, false]
  {
    assert LowBits(0, 1) == [false] + LowBits(0, 0);
    assert LowBits(1, 2) == [true] + LowBits(0, 1);
    assert LowBits(1, 1) == [true] + LowBits(0, 0);
  }
}
