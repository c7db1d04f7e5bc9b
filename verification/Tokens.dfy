/** The tokens the compressor chooses for some data, as a function of the data and the chain length, and
    the bits that spell them. */
module Tokens {
  import opened Wrappers
  import opened Inflate
  import opened DeflateFormat
  import opened Matcher

  // ---------- The choice at one position ----------

  /** All chains hold positions before i only. */
  ghost predicate Ready(table: seq<seq<nat>>, i: nat) {
    |table| == HASH_SIZE && forall h :: 0 <= h < |table| ==> Below(table[h], i)
  }

  /** The chosen match: none when the next position has a longer one. */
  ghost function Choice(data: seq<Byte>, i: nat, chain: seq<nat>, next: seq<nat>): Option<(nat, nat)>
    requires i + 1 <= |data| && Below(chain, i) && Below(next, i + 1)
  {
    var m := Pick(data, i, chain);
    if m.Some? && Better(data, i, next, m.value.1) then None else m
  }

  /** The chains after position i joined its own. */
  ghost function Joined(data: seq<Byte>, i: nat, table: seq<seq<nat>>, quality: nat): (r: seq<seq<nat>>)
    requires i + 2 < |data| && quality > 0 && Ready(table, i)
    ensures Ready(r, i + 1)
  {
    var h := Hash(data, i);
    table[h := Pushed(table[h], quality, i)]
  }

  /** The token at position i. */
  ghost function TokenAt(data: seq<Byte>, i: nat, table: seq<seq<nat>>, quality: nat): (t: Token)
    requires i + 3 < |data| && quality > 0 && Ready(table, i)
    ensures Fits(data, i, t)
  {
    var m := Choice(data, i, table[Hash(data, i)], Joined(data, i, table, quality)[Hash(data, i + 1)]);
    if m == None then Literal(data[i])
    else
      PickFits(data, i, table[Hash(data, i)]);
      Match(m.value.1, i - m.value.0)
  }

  /** How many bytes a token stands for. */
  function Width(t: Token): nat { if t.Match? then t.length else 1 }

  /** A token that stands for the data at position i. */
  predicate Fits(data: seq<Byte>, i: nat, t: Token) {
    match t
    case Literal(b) => i < |data| && b == data[i]
    case Match(length, distance) =>
      3 <= length <= 258 && 1 <= distance <= 32767 && distance <= i && Agree(data, i - distance, i, length)
    case EndOfBlock => false
  }

  lemma PickFits(data: seq<Byte>, i: nat, chain: seq<nat>)
    requires i <= |data| && Below(chain, i)
    ensures var m := Pick(data, i, chain); m.Some? ==>
      m.value.0 < i && Fits(data, i, Match(m.value.1, i - m.value.0))
  {
    hide MatchLength;
    var m := Pick(data, i, chain);
    if m.Some? {
      MatchLengthAgrees(data, m.value.0, i);
    }
  }

  lemma MatchLengthAgrees(data: seq<Byte>, p: nat, q: nat)
    requires p <= q <= |data|
    ensures MatchLength(data, p, q) <= 258 && Agree(data, p, q, MatchLength(data, p, q))
  {}

  // ---------- All tokens ----------

  function Literals(data: seq<Byte>): seq<Token> {
    seq(|data|, k requires 0 <= k < |data| => Literal(data[k]))
  }

  lemma ReadyLater(table: seq<seq<nat>>, i: nat, j: nat)
    requires Ready(table, i) && i <= j
    ensures Ready(table, j)
  {
    forall h | 0 <= h < |table|
      ensures Below(table[h], j)
    {
      assert Below(table[h], i);
    }
  }

  /** The tokens from position i on; the last three bytes are literals. */
  ghost function TokensFrom(data: seq<Byte>, i: nat, table: seq<seq<nat>>, quality: nat): seq<Token>
    requires i <= |data| && quality > 0 && Ready(table, i)
    decreases |data| - i
  {
    if i + 3 >= |data| then Literals(data[i..])
    else
      var t, next := TokenAt(data, i, table, quality), Joined(data, i, table, quality);
      ReadyLater(next, i + 1, i + Width(t));
      [t] + TokensFrom(data, i + Width(t), next, quality)
  }

  /** No position has joined a chain. */
  ghost function NoChains(): (table: seq<seq<nat>>)
    ensures Ready(table, 0)
  {
    seq(HASH_SIZE, _ => [])
  }

  ghost function AllTokens(data: seq<Byte>, quality: nat): seq<Token>
    requires quality > 0
  {
    TokensFrom(data, 0, NoChains(), quality)
  }

  // ---------- Bits ----------

  /** The code of a length; 258 has a code of its own. */
  predicate IsLengthCode(k: nat, length: nat) { InLengthCode(k, length) && (length == 258 <==> k == 28) }

  ghost predicate Spells(bits: seq<bool>, t: Token) {
    match t
    case Literal(b) => bits == SymbolBits(b)
    case Match(length, distance) =>
      exists k: nat, d: nat :: IsLengthCode(k, length) && InDistanceCode(d, distance)
        && bits == MatchBits(length, k, distance, d)
    case EndOfBlock => bits == SymbolBits(256)
  }

  ghost predicate SpellsAll(bits: seq<bool>, tokens: seq<Token>)
    decreases |tokens|
  {
    if tokens == [] then bits == []
    else
      exists front: seq<bool>, last: seq<bool> ::
        bits == front + last && SpellsAll(front, tokens[..|tokens| - 1]) && Spells(last, tokens[|tokens| - 1])
  }

  lemma SpellsMore(bits: seq<bool>, tokens: seq<Token>, last: seq<bool>, t: Token)
    requires SpellsAll(bits, tokens) && Spells(last, t)
    ensures SpellsAll(bits + last, tokens + [t])
  {
    hide Spells;
    assert (tokens + [t])[..|tokens|] == tokens;
    var front := bits;
    assert bits + last == front + last;
  }

  /** What the decoder has produced grows by the bytes of the token. */
  lemma TokenEmits(block: seq<bool>, bits: seq<bool>, data: seq<Byte>, i: nat, t: Token)
    requires i <= |data| && Emits(block, data[..i]) && Spells(bits, t) && Fits(data, i, t)
    ensures i + Width(t) <= |data| && Emits(block + bits, data[..i + Width(t)])
  {
    hide Emits, MatchBits, SymbolBits, CopyMatch, Agree, InLengthCode, InDistanceCode;
    match t
    case Literal(b) =>
      EmitLiteral(block, data[..i], b);
      assert data[..i] + [data[i]] == data[..i + 1];
    case Match(length, distance) =>
      var k: nat, d: nat :| IsLengthCode(k, length) && InDistanceCode(d, distance)
        && bits == MatchBits(length, k, distance, d);
      MatchIsData(data, i, length, distance);
      EmitMatch(block, data[..i], length, k, distance, d);
  }

  lemma MatchIsData(data: seq<Byte>, i: nat, length: nat, distance: nat)
    requires 1 <= distance <= i && Agree(data, i - distance, i, length)
    ensures i + length <= |data|
    ensures CopyMatch(data[..i], length, distance) == data[..i + length]
  {
    CopyMatchIsData(data, i, length, distance);
  }
}
