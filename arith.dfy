/** Facts of integer multiplication and Euclidean division that the solver does not find by
    itself once several products are in play. */
module Arith {

  lemma MulMono(a: int, b: int, c: nat)
    requires a <= b
    ensures a * c <= b * c
  {
    assert b * c - a * c == (b - a) * c;
  }

  /** Quotient and remainder are determined by any decomposition with a remainder below m. */
  lemma DivUnique(x: int, m: int, q: int, r: int)
    requires m > 0 && 0 <= r < m && x == q * m + r
    ensures x / m == q && x % m == r
  {
    var q' := x / m;
    var r' := x % m;
    assert x == q' * m + r';
    var k := q - q';
    assert k * m == r' - r;
    if k > 0 {
      MulMono(1, k, m);
    }
  }

  lemma MulDivCancel(q: int, m: int)
    requires m > 0
    ensures (q * m) / m == q && (q * m) % m == 0
  {
    DivUnique(q * m, m, q, 0);
  }

  lemma DivMulExact(x: int, m: int)
    requires m > 0 && x % m == 0
    ensures x == (x / m) * m
  {
  }

  lemma DivLe(x: nat, m: nat)
    requires m > 0
    ensures x / m <= x
  {
    MulMono(1, m, x / m);
  }
}
