/** Quotients and remainders of natural numbers. */
module Division {
  import Bits

  lemma {:induction false} DivDiv(a: nat, p: nat, d: nat, n: nat)
    requires p > 0 && d > 0 && n == d * p
    ensures n > 0 && (a / p) / d == a / n
  {
    var q, r := a / p, a % p;
    Remainder(a, p); Remainder(q, d);
    Nested(a, p, d, n, q, r, q / d, q % d);
    Bits.DivModUnique(a, q / d, (q % d) * p + r, n);
  }

  lemma {:induction false} Nested(a: nat, p: nat, d: nat, n: nat, q: nat, r: nat, u: nat, v: nat)
    requires p > 0 && d > 0 && n == d * p && a == q * p + r && r < p && q == u * d + v && v < d
    ensures n > 0 && a == u * n + (v * p + r) && 0 <= v * p + r < n
  {
    Expand(u, d, v, p, n);
    LowPart(v, d, p, r);
  }

  lemma Expand(u: nat, d: nat, v: nat, p: nat, n: nat)
    requires n == d * p
    ensures (u * d + v) * p == u * n + v * p
  {
    assert (u * d + v) * p == (u * d) * p + v * p;
    assert (u * d) * p == u * (d * p);
  }

  lemma LowPart(v: nat, d: nat, p: nat, r: nat)
    requires v < d && r < p
    ensures 0 <= v * p + r < d * p
  {
    Bits.MulMonotone(v + 1, d, p);
    assert (v + 1) * p == v * p + p;
  }

  lemma Remainder(a: nat, n: nat)
    requires n > 0
    ensures a - (a / n) * n == a % n
  {
  }

  lemma DivMonotone(a: nat, b: nat, p: nat)
    requires a <= b && p > 0
    ensures a / p <= b / p
  {
    var q, r := a / p, b / p;
    Remainder(a, p); Remainder(b, p);
    Bits.MulMonotone(r + 1, q, p);
    assert (r + 1) * p == r * p + p;
  }

  lemma DivOrder(a: nat, b: nat, p: nat)
    requires p > 0
    ensures a / p < b / p ==> a < b
  {
    if a >= b { DivMonotone(b, a, p); }
  }

  lemma SamePlace(a: nat, b: nat, n: nat)
    requires n > 0 && a / n == b / n
    ensures a - b == a % n - b % n
  {
    Remainder(a, n); Remainder(b, n);
  }
}
