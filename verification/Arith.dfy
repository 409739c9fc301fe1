/** The few facts of arithmetic several components need. */
module Arith {
  function Min(a: int, b: int): (m: int) { if a < b then a else b }

  lemma {:induction false} MulOrder(a: nat, b: nat, m: nat)
    requires a < b
    ensures a * m + m <= b * m
  {
    if a + 1 < b {
      MulOrder(a, b - 1, m);
    }
    assert b * m == (b - 1) * m + m;
  }

  lemma {:induction false} QuotientUnique(q: nat, r: nat, m: nat)
    requires r < m
    ensures (q * m + r) / m == q && (q * m + r) % m == r
  {
    var x := q * m + r;
    var d := x / m;
    assert x == d * m + x % m;
    if d < q { MulOrder(d, q, m); } else if q < d { MulOrder(q, d, m); }
  }

  lemma {:induction false} QuotientShift(j: nat, x: nat, m: nat)
    requires m > 0
    ensures (j * m + x) / m == j + x / m
  {
    var a, r := x / m, x % m;
    assert x == a * m + r;
    assert j * m + x == (j + a) * m + r;
    QuotientUnique(j + a, r, m);
  }

  lemma {:induction false} EvenShift(j: nat, x: nat)
    ensures (2 * j + x) % 2 == x % 2
  {
  }
}
