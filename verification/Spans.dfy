/** Leading runs of elements with a property: the common shape of all the hand-written scanners. */
module Spans {

  /** How many leading elements satisfy p. */
  function Span<T>(t: seq<T>, p: T -> bool): (n: nat)
    ensures n <= |t| && (forall k :: 0 <= k < n ==> p(t[k])) && (n < |t| ==> !p(t[n]))
  {
    if t == [] || !p(t[0]) then 0 else
      var n := Span(t[1..], p);
      assert forall k :: 1 <= k <= n ==> t[k] == t[1..][k - 1];
      n + 1
  }

  lemma SpanIs<T>(t: seq<T>, p: T -> bool, n: nat)
    requires n <= |t| && (forall k :: 0 <= k < n ==> p(t[k])) && (n < |t| ==> !p(t[n]))
    ensures Span(t, p) == n
  {
    var m := Span(t, p);
    assert m < |t| ==> !p(t[m]);
    assert n < |t| ==> !p(t[n]);
  }

  function Repeat<T>(x: T, n: nat): (r: seq<T>)
    ensures |r| == n
  {
    seq(n, _ => x)
  }
}
