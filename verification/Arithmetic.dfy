/**
Products, quotients and remainders, as they come up with rows and columns.
 */
module Arithmetic {
  /** The product, where it is better not to know more about it. */
  function Times(a: nat, b: nat): nat {
    a * b
  }

  lemma {:induction false} MulMonotone(a: nat, b: nat, n: nat)
    requires a <= b
    ensures a * n <= b * n
  {
  }

  lemma MulNext(a: nat, b: nat, n: nat)
    requires a < b
    ensures a * n + n <= b * n
  {
    MulMonotone(a + 1, b, n);
    assert (a + 1) * n == a * n + n;
  }

  lemma SameQuotient(a: nat, b: nat, q: nat, r: nat, n: nat)
    requires b < n && r < n && a * n + b == q * n + r
    ensures a == q && b == r
  {
    if a < q { MulNext(a, q, n); }
    if q < a { MulNext(q, a, n); }
  }

  lemma DivMod(a: nat, b: nat, n: nat)
    requires b < n
    ensures (a * n + b) / n == a && (a * n + b) % n == b
  {
    var m := a * n + b;
    assert m == m / n * n + m % n;
    SameQuotient(a, b, m / n, m % n, n);
  }

  lemma QuotientRemainder(p: nat, n: nat)
    requires n > 0
    ensures p == p / n * n + p % n
  {
  }
}
