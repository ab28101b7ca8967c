/** Facts about products, quotients and remainders that the solver is not left to find. */
module Arithmetic {

  lemma {:induction false} DoubleProduct(p: nat, q: nat)
    ensures (2 * p) * q == 2 * (p * q)
  {}

  lemma {:induction false} MoveDouble(p: nat, q: nat)
    ensures p * (2 * q) == (2 * p) * q
  {}

  lemma {:induction false} DivModUnique(x: nat, p: nat, q: nat, r: nat)
    requires p >= 1 && x == p * q + r && r < p
    ensures x / p == q && x % p == r
  {
    var q', r' := x / p, x % p;
    if q > q' { MulLeft(p, q' + 1, q); }
    if q < q' { MulLeft(p, q + 1, q'); }
  }

  lemma {:induction false} MulLeft(p: nat, a: nat, b: nat)
    requires a <= b
    ensures p * a <= p * b
  {
    assert p * b == p * a + p * (b - a);
  }

  /** The quotient is the largest number of whole units. */
  lemma {:induction false} WholeUnits(n: nat, unit: nat, total: nat)
    requires unit >= 1
    ensures n <= total / unit <==> unit * n <= total
    ensures unit * n / unit == n
  {
    DivModUnique(unit * n, unit, n, 0);
    var k := total / unit;
    assert total == unit * k + total % unit;
    if n <= k {
      MulLeft(unit, n, k);
    } else {
      MulLeft(unit, k + 1, n);
      assert unit * (k + 1) == unit * k + unit;
    }
  }

  /** A phase counter that wraps at d counts positions modulo d. */
  lemma {:induction false} ModSucc(x: nat, d: nat)
    requires d >= 1
    ensures (x + 1) % d == if x % d + 1 == d then 0 else x % d + 1
    ensures (x + 1) / d == if x % d + 1 == d then x / d + 1 else x / d
  {
    var q, r := x / d, x % d;
    if r + 1 == d {
      assert d * (q + 1) == d * q + d;
      DivModUnique(x + 1, d, q + 1, 0);
    } else {
      DivModUnique(x + 1, d, q, r + 1);
    }
  }
}
