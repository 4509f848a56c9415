/** Bit-level arithmetic on natural numbers.

    A machine word, a row of words or a polynomial over GF(2) is one natural number whose
    bit i is the coefficient of x^i.  Working on unbounded numbers keeps the widths explicit:
    every truncation the C code performs is written out as a remainder.
 */
module Bits {

  function Pow2(k: nat): (r: nat)
    ensures r >= 1
  {
    if k == 0 then 1 else 2 * Pow2(k - 1)
  }

  /** Bitwise exclusive or; addition of polynomials over GF(2). */
  function Xor(a: nat, b: nat): nat
    decreases a + b
  {
    if a == 0 then b
    else if b == 0 then a
    else 2 * Xor(a / 2, b / 2) + (a + b) % 2
  }

  /** Bitwise or. */
  function Or(a: nat, b: nat): nat
    decreases a + b
  {
    if a == 0 then b
    else if b == 0 then a
    else 2 * Or(a / 2, b / 2) + (if a % 2 == 1 || b % 2 == 1 then 1 else 0)
  }

  /** hi above k bits of lo. */
  function Join(hi: nat, k: nat, lo: nat): nat {
    hi * Pow2(k) + lo
  }

  /** Position of the highest set bit: fls(x) - 1. */
  function Degree(x: nat): (d: nat)
    requires x > 0
    ensures Pow2(d) <= x < Pow2(d + 1)
  {
    if x == 1 then 0 else Degree(x / 2) + 1
  }

  // ----- powers of two

  lemma {:induction false} Pow2Add(a: nat, b: nat)
    ensures Pow2(a + b) == Pow2(a) * Pow2(b)
  {
    if a > 0 {
      Pow2Add(a - 1, b);
      assert Pow2(a + b) == 2 * Pow2(a - 1 + b);
      assert 2 * (Pow2(a - 1) * Pow2(b)) == (2 * Pow2(a - 1)) * Pow2(b);
    }
  }

  lemma {:induction false} Pow2Monotone(a: nat, b: nat)
    requires a <= b
    ensures Pow2(a) <= Pow2(b)
    decreases b - a
  {
    if a < b { Pow2Monotone(a + 1, b); }
  }

  lemma {:induction false} Pow2Strict(a: nat, b: nat)
    requires a < b
    ensures Pow2(a) < Pow2(b)
  {
    Pow2Monotone(a + 1, b);
  }

  lemma DegreeUnique(x: nat, d: nat)
    requires Pow2(d) <= x < Pow2(d + 1)
    ensures x > 0 && Degree(x) == d
  {
    if Degree(x) < d { Pow2Monotone(Degree(x) + 1, d); }
    if d < Degree(x) { Pow2Monotone(d + 1, Degree(x)); }
  }

  lemma SmallQuotient(y: nat, p: nat)
    requires p > 0 && y < 2 * p
    ensures y / p == if y >= p then 1 else 0
  {
    var q := y / p;
    assert y == q * p + y % p;
  }

  lemma WholeMultiple(k: int, n: int)
    requires n > 0
    ensures k == 0 || k * n >= n || k * n <= -n
  {
    if k >= 1 { assert k * n >= n; }
    if k <= -1 { assert k * n <= -n; }
  }

  lemma MulMonotone(a: nat, q: nat, p: nat)
    ensures a <= q ==> a * p <= q * p
  {
  }

  /** Quotient and remainder are determined by their defining equation. */
  lemma DivModUnique(x: int, q: int, r: int, n: int)
    requires n > 0 && x == q * n + r && 0 <= r < n
    ensures x / n == q && x % n == r
  {
    var q', r' := x / n, x % n;
    assert x == q' * n + r';
    assert (q - q') * n == r' - r;
    WholeMultiple(q - q', n);
  }

  lemma ModAddMultiple(r: nat, k: nat, n: nat)
    requires n > 0
    ensures (r + k * n) % n == r % n
  {
    var q := r / n;
    assert r == q * n + r % n;
    assert r + k * n == (q + k) * n + r % n;
    DivModUnique(r + k * n, q + k, r % n, n);
  }

  // ----- exclusive or

  /** Exclusive or acts on the last bit and on the rest independently. */
  lemma {:induction false} XorCons(a: nat, i: nat, b: nat, j: nat)
    requires i < 2 && j < 2
    ensures Xor(2 * a + i, 2 * b + j) == 2 * Xor(a, b) + (i + j) % 2
  {
    var u, v := 2 * a + i, 2 * b + j;
    assert u / 2 == a && v / 2 == b;
    assert (u + v) % 2 == (i + j) % 2;
    if u == 0 || v == 0 { XorZero(a); XorZero(b); }
  }

  lemma XorZero(a: nat)
    ensures Xor(a, 0) == a
    ensures Xor(0, a) == a
  {
  }

  lemma XorBits(i: nat, j: nat)
    requires i < 2 && j < 2
    ensures Xor(i, j) == (i + j) % 2
  {
  }

  lemma {:induction false} XorComm(a: nat, b: nat)
    ensures Xor(a, b) == Xor(b, a)
    decreases a + b
  {
    if a > 0 && b > 0 { XorComm(a / 2, b / 2); }
  }

  lemma {:induction false} XorSelf(a: nat)
    ensures Xor(a, a) == 0
  {
    if a > 0 { XorSelf(a / 2); }
  }

  lemma {:induction false} XorAssoc(a: nat, b: nat, c: nat)
    ensures Xor(Xor(a, b), c) == Xor(a, Xor(b, c))
    decreases a + b + c
  {
    if a > 0 && b > 0 && c > 0 {
      var a', i := a / 2, a % 2;
      var b', j := b / 2, b % 2;
      var c', k := c / 2, c % 2;
      XorAssoc(a', b', c');
      XorAssocBit(a', i, b', j, c', k);
    }
  }

  lemma {:induction false} XorAssocBit(a: nat, i: nat, b: nat, j: nat, c: nat, k: nat)
    requires i < 2 && j < 2 && k < 2
    requires Xor(Xor(a, b), c) == Xor(a, Xor(b, c))
    ensures Xor(Xor(2 * a + i, 2 * b + j), 2 * c + k) == Xor(2 * a + i, Xor(2 * b + j, 2 * c + k))
  {
    hide Xor;
    XorCons(a, i, b, j);
    XorCons(Xor(a, b), (i + j) % 2, c, k);
    XorCons(b, j, c, k);
    XorCons(a, i, Xor(b, c), (j + k) % 2);
  }

  /** Swaps the middle terms of a four-term sum. */
  lemma {:induction false} XorSwap(a: nat, b: nat, c: nat, d: nat)
    ensures Xor(Xor(a, b), Xor(c, d)) == Xor(Xor(a, c), Xor(b, d))
  {
    XorAssoc(a, b, Xor(c, d)); XorAssoc(b, c, d);
    XorComm(b, c);
    XorAssoc(c, b, d); XorAssoc(a, c, Xor(b, d));
  }

  lemma {:induction false} XorCancel(a: nat, b: nat)
    ensures Xor(Xor(a, b), b) == a
    ensures Xor(b, Xor(b, a)) == a
  {
    XorAssoc(a, b, b); XorSelf(b);
    XorAssoc(b, b, a);
  }

  lemma {:induction false} XorZeroEqual(a: nat, b: nat)
    requires Xor(a, b) == 0
    ensures a == b
  {
    XorCancel(a, b);
  }

  lemma {:induction false} XorBound(a: nat, b: nat, k: nat)
    requires a < Pow2(k) && b < Pow2(k)
    ensures Xor(a, b) < Pow2(k)
  {
    if k > 0 && a > 0 && b > 0 { XorBound(a / 2, b / 2, k - 1); }
  }

  lemma {:induction false} XorDouble(a: nat, b: nat)
    ensures Xor(2 * a, 2 * b) == 2 * Xor(a, b)
    ensures Xor(2 * a, 1) == 2 * a + 1
  {
    XorCons(a, 0, b, 0);
    XorCons(a, 0, 0, 1);
    XorZero(a);
  }

  /** Exclusive or works separately on a high part and a low part of k bits. */
  lemma {:induction false} XorSplit(a: nat, b: nat, c: nat, d: nat, k: nat)
    requires b < Pow2(k) && d < Pow2(k)
    ensures Xor(a * Pow2(k) + b, c * Pow2(k) + d) == Xor(a, c) * Pow2(k) + Xor(b, d)
    ensures Xor(b, d) < Pow2(k)
  {
    hide Xor; hide Pow2;
    XorBound(b, d, k);
    if k == 0 {
      PowersOf0(); XorZero(0);
    } else {
      var p := Pow2(k - 1);
      Pow2Double(k);
      var b', i, d', j := b / 2, b % 2, d / 2, d % 2;
      XorSplit(a, b', c, d', k - 1);
      XorCons(a * p + b', i, c * p + d', j);
      XorCons(b', i, d', j);
      HalfOf(a, b, p); HalfOf(c, d, p); HalfOf(Xor(a, c), Xor(b, d), p);
    }
  }

  lemma PowersOf0()
    ensures Pow2(0) == 1
  {
  }

  lemma Pow2Double(k: nat)
    requires k > 0
    ensures Pow2(k) == 2 * Pow2(k - 1)
  {
  }

  lemma HalfOf(a: nat, b: nat, p: nat)
    ensures a * (2 * p) + b == 2 * (a * p + b / 2) + b % 2
  {
  }

  lemma {:induction false} XorJoin(a: nat, b: nat, c: nat, d: nat, k: nat)
    requires b < Pow2(k) && d < Pow2(k)
    ensures Xor(Join(a, k, b), Join(c, k, d)) == Join(Xor(a, c), k, Xor(b, d))
    ensures Xor(b, d) < Pow2(k)
  {
    hide Xor; hide Pow2;
    XorSplit(a, b, c, d, k);
  }

  lemma {:induction false} XorShift(a: nat, c: nat, k: nat)
    ensures Xor(a * Pow2(k), c * Pow2(k)) == Xor(a, c) * Pow2(k)
  {
    XorSplit(a, 0, c, 0, k);
  }

  /** Or of two numbers that share no bit position is their sum. */
  lemma {:induction false} OrDisjoint(a: nat, b: nat, k: nat)
    requires b < Pow2(k)
    ensures Or(a * Pow2(k), b) == a * Pow2(k) + b
  {
    if k > 0 && b > 0 && a > 0 {
      assert a * Pow2(k) == 2 * (a * Pow2(k - 1));
      OrDisjoint(a, b / 2, k - 1);
      assert a * Pow2(k) > 0;
    } else if k == 0 || a == 0 {
    } else {
      assert Or(a * Pow2(k), 0) == a * Pow2(k);
    }
  }
}
