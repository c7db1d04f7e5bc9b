/** Integer functions and nonlinear facts that several modules need. */
module Arithmetic {
  function Abs(a: int): nat { if a < 0 then -a else a }

  function Min(a: int, b: int): int { if a < b then a else b }

  function Max(a: int, b: int): int { if a < b then b else a }

  lemma MulNext(a: nat, b: nat)
    ensures (a + 1) * b == a * b + b && b * (a + 1) == b * a + b
  {}

  lemma {:induction false} MulMonotone(a: nat, b: nat, c: nat)
    requires a <= b
    ensures a * c <= b * c && c * a <= c * b
  {
    if a < b {
      MulMonotone(a, b - 1, c);
      MulNext(b - 1, c);
    }
  }

  lemma DivModUnique(x: nat, n: nat, q: nat, r: nat)
    requires n > 0 && x == n * q + r && r < n
    ensures x / n == q && x % n == r
  {
    var p := x / n;
    assert x == n * p + x % n;
    if p < q { MulMonotone(p + 1, q, n); }
    if q < p { MulMonotone(q + 1, p, n); }
  }
}
