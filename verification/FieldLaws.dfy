/** The table arithmetic is field arithmetic: gf_mul is the carry-less product modulo the field
    polynomial, and it is commutative, associative, distributes over exclusive or and inverts.
 */
module FieldLaws {
  import opened Bits
  import opened BinaryPoly
  import opened GaloisField

  function A(f: Field, i: nat): nat { Alpha(f.m, f.poly, i) }

  lemma FieldSize(f: Field)
    requires f.Valid()
    ensures f.N() >= 3 && A(f, 0) == 1
  {
    Pow2Monotone(2, f.m);
    assert Pow2(2) == 4;
  }

  // ----- powers of alpha add in the exponent

  lemma {:induction false} AlphaPeriod(f: Field, i: nat, k: nat)
    requires f.Valid()
    ensures A(f, i + k * f.N()) == A(f, i)
    decreases k
  {
    hide Shift; hide Pow2;
    if k > 0 {
      AlphaPeriod(f, i, k - 1);
      var j := i + (k - 1) * f.N();
      ShiftNAdd(f.poly, f.m, j, f.N(), 1);
      assert i + k * f.N() == j + f.N();
    }
  }

  lemma {:induction false} AlphaMod(f: Field, i: nat)
    requires f.Valid()
    ensures f.N() > 0 && A(f, i) == A(f, i % f.N())
    ensures A(f, i) == f.pow[i % f.N()] == f.APow(i)
    ensures 0 < A(f, i) <= f.N() && f.log[A(f, i)] == i % f.N()
  {
    hide ShiftN; hide Pow2;
    FieldSize(f);
    var n := f.N();
    assert i == i % n + (i / n) * n;
    AlphaPeriod(f, i % n, i / n);
  }

  lemma {:induction false} LogAlpha(f: Field, x: nat)
    requires f.Valid() && 0 < x <= f.N()
    ensures A(f, f.log[x]) == x
  {
  }

  lemma {:induction false} ReducedLog(f: Field, v: nat)
    requires f.Valid() && v < 2 * f.N()
    ensures f.pow[f.ModS(v)] == A(f, v)
  {
    if v >= f.N() {
      AlphaPeriod(f, v - f.N(), 1);
      assert v - f.N() + 1 * f.N() == v;
    }
  }

  lemma {:induction false} AlphaSum(f: Field, i: nat, j: nat, u: nat, v: nat)
    requires A(f, i) == A(f, u) && A(f, j) == A(f, v)
    ensures A(f, i + j) == A(f, u + v)
  {
    hide ShiftN;
    ShiftNAdd(f.poly, f.m, j, i, 1); ShiftNAdd(f.poly, f.m, j, u, 1);
    ShiftNAdd(f.poly, f.m, u, j, 1); ShiftNAdd(f.poly, f.m, u, v, 1);
    assert i + j == j + i && u + j == j + u;
  }

  lemma {:induction false} AlphaMul(f: Field, i: nat, j: nat)
    requires f.Valid()
    ensures A(f, i) <= f.N() && A(f, j) <= f.N()
    ensures f.Mul(A(f, i), A(f, j)) == A(f, i + j)
  {
    hide ShiftN; hide Pow2;
    AlphaMod(f, i); AlphaMod(f, j);
    var u, v := i % f.N(), j % f.N();
    ReducedLog(f, u + v);
    AlphaSum(f, i, j, u, v);
  }

  // ----- ring laws

  lemma {:induction false} MulIsShift(f: Field, i: nat, x: nat)
    requires f.Valid() && x <= f.N()
    ensures A(f, i) <= f.N() && f.Mul(A(f, i), x) == ShiftN(f.poly, f.m, i, x)
  {
    AlphaMod(f, i);
    if x == 0 {
      ShiftZero(f.poly, f.m, i);
    } else {
      LogAlpha(f, x);
      AlphaMul(f, i, f.log[x]);
      ShiftNAdd(f.poly, f.m, i, f.log[x], 1);
    }
  }

  lemma ElemXor(f: Field, x: nat, y: nat)
    requires x <= f.N() && y <= f.N()
    ensures Xor(x, y) <= f.N()
  {
    XorBound(x, y, f.m);
  }

  lemma MulComm(f: Field, a: nat, b: nat)
    requires f.Valid() && a <= f.N() && b <= f.N()
    ensures f.Mul(a, b) == f.Mul(b, a)
  {
  }

  lemma {:induction false} MulOne(f: Field, a: nat)
    requires f.Valid() && a <= f.N()
    ensures 1 <= f.N() && f.Mul(a, 1) == a && f.Mul(1, a) == a
  {
    FieldSize(f);
    MulIsShift(f, 0, a);
  }

  lemma {:induction false} AlphaAssoc(f: Field, i: nat, j: nat, k: nat)
    requires f.Valid()
    ensures A(f, i) <= f.N() && A(f, j) <= f.N() && A(f, k) <= f.N()
    ensures f.Mul(f.Mul(A(f, i), A(f, j)), A(f, k)) == f.Mul(A(f, i), f.Mul(A(f, j), A(f, k)))
  {
    hide A; hide Field.Mul; hide Field.Valid;
    AlphaMul(f, i, j); AlphaMul(f, j, k);
    AlphaMul(f, i + j, k); AlphaMul(f, i, j + k);
    assert i + (j + k) == i + j + k;
  }

  lemma {:induction false} MulAssoc(f: Field, a: nat, b: nat, c: nat)
    requires f.Valid() && a <= f.N() && b <= f.N() && c <= f.N()
    ensures f.Mul(f.Mul(a, b), c) == f.Mul(a, f.Mul(b, c))
  {
    hide A; hide Pow2;
    if a != 0 && b != 0 && c != 0 {
      LogAlpha(f, a); LogAlpha(f, b); LogAlpha(f, c);
      AlphaAssoc(f, f.log[a], f.log[b], f.log[c]);
    }
  }

  lemma {:induction false} MulXor(f: Field, a: nat, x: nat, y: nat)
    requires f.Valid() && a <= f.N() && x <= f.N() && y <= f.N()
    ensures Xor(x, y) <= f.N() && f.Mul(a, Xor(x, y)) == Xor(f.Mul(a, x), f.Mul(a, y))
    ensures f.Mul(Xor(x, y), a) == Xor(f.Mul(x, a), f.Mul(y, a))
  {
    ElemXor(f, x, y);
    if a == 0 {
      XorZero(0);
    } else {
      var i := f.log[a];
      MulIsShift(f, i, x); MulIsShift(f, i, y); MulIsShift(f, i, Xor(x, y));
      ShiftNXor(f.poly, f.m, i, x, y);
    }
    MulComm(f, a, x); MulComm(f, a, y); MulComm(f, a, Xor(x, y));
  }

  lemma {:induction false} MulZero(f: Field, a: nat, b: nat)
    requires f.Valid() && a <= f.N() && b <= f.N()
    ensures f.Mul(a, b) == 0 <==> a == 0 || b == 0
  {
    hide ShiftN; hide Pow2;
    if a != 0 && b != 0 { AlphaMul(f, f.log[a], f.log[b]); AlphaMod(f, f.log[a] + f.log[b]); }
  }

  // ----- squares, quotients, inverses

  lemma {:induction false} SqrIsMul(f: Field, a: nat)
    requires f.Valid() && a <= f.N()
    ensures f.Sqr(a) == f.Mul(a, a)
  {
  }

  /** Squaring is additive in characteristic two. */
  lemma {:induction false} SqrXor(f: Field, x: nat, y: nat)
    requires f.Valid() && x <= f.N() && y <= f.N()
    ensures Xor(x, y) <= f.N() && f.Sqr(Xor(x, y)) == Xor(f.Sqr(x), f.Sqr(y))
  {
    SqrIsMul(f, x); SqrIsMul(f, y); ElemXor(f, x, y); SqrIsMul(f, Xor(x, y));
    hide Xor; hide Field.Mul; hide Field.Valid; hide Field.Sqr;
    var z := Xor(x, y);
    MulXor(f, z, x, y); MulXor(f, x, x, y); MulXor(f, y, x, y);
    MulComm(f, x, y);
    var p := f.Mul(x, y);
    XorComm(p, f.Mul(y, y));
    XorSwap(f.Mul(x, x), p, f.Mul(y, y), p);
    XorSelf(p); XorZero(Xor(f.Mul(x, x), f.Mul(y, y)));
  }

  /** The elements fixed by squaring are 0 and 1. */
  lemma {:induction false} SqrFixed(f: Field, a: nat)
    requires f.Valid() && a <= f.N() && f.Sqr(a) == a
    ensures a < 2
  {
    if a != 0 {
      var l := f.log[a];
      assert f.log[f.pow[f.ModS(2 * l)]] == f.ModS(2 * l);
      assert l == 0;
      assert f.pow[0] == A(f, 0) == 1;
    }
  }

  lemma {:induction false} SqrAlpha(f: Field, i: nat)
    requires f.Valid()
    ensures A(f, i) <= f.N() && f.Sqr(A(f, i)) == A(f, 2 * i)
  {
    hide ShiftN; hide Pow2;
    AlphaMul(f, i, i);
  }

  /** gf_div undoes gf_mul for every nonzero divisor. */
  lemma {:induction false} DivMul(f: Field, a: nat, b: nat)
    requires f.Valid() && a <= f.N() && 0 < b <= f.N()
    ensures f.Mul(f.Div(a, b), b) == a
    ensures f.Div(f.Mul(a, b), b) == a
  {
    if a != 0 {
      var n, i, j := f.N(), f.log[a], f.log[b];
      DivExact(f, a, b);
      var c := f.Mul(a, b);
      MulZero(f, a, b);
      DivExact(f, c, b);
      MulCancel(f, f.Div(c, b), a, b);
    }
  }

  lemma {:induction false} DivExact(f: Field, a: nat, b: nat)
    requires f.Valid() && 0 < a <= f.N() && 0 < b <= f.N()
    ensures f.Mul(f.Div(a, b), b) == a
  {
    hide Shift; hide ShiftN; hide Pow2;
    var n, i, j := f.N(), f.log[a], f.log[b];
    ReducedLog(f, i + n - j);
    AlphaMul(f, i + n - j, j);
    AlphaPeriod(f, i, 1);
    assert i + n - j + j == i + 1 * n;
  }

  lemma {:induction false} MulCancel(f: Field, x: nat, y: nat, b: nat)
    requires f.Valid() && x <= f.N() && y <= f.N() && 0 < b <= f.N()
    requires f.Mul(x, b) == f.Mul(y, b)
    ensures x == y
  {
    MulXor(f, b, x, y);
    XorSelf(f.Mul(x, b));
    MulZero(f, Xor(x, y), b);
    XorZeroEqual(x, y);
  }

  lemma {:induction false} InvMul(f: Field, a: nat)
    requires f.Valid() && 0 < a <= f.N()
    ensures f.Mul(f.Inv(a), a) == 1
  {
    hide ShiftN; hide Pow2;
    var n, i := f.N(), f.log[a];
    AlphaMul(f, n - i, i);
  }

  // ----- gf_mul is multiplication of polynomials modulo the field polynomial

  lemma {:induction false} MulByAlpha(f: Field, x: nat)
    requires f.Valid() && x <= f.N()
    ensures A(f, 1) <= f.N() && f.Mul(A(f, 1), x) == Shift(f.poly, f.m, x)
  {
    hide Shift;
    MulIsShift(f, 1, x);
    assert ShiftN(f.poly, f.m, 1, x) == Shift(f.poly, f.m, ShiftN(f.poly, f.m, 0, x));
  }

  lemma {:induction false} MulByAlphaCommutes(f: Field, a: nat, h: nat)
    requires f.Valid() && a <= f.N() && 2 * h <= f.N()
    ensures f.Mul(a, 2 * h) == Shift(f.poly, f.m, f.Mul(a, h))
  {
    assert Shift(f.poly, f.m, h) == 2 * h;
    hide Shift; hide Pow2; hide A; hide Field.Mul; hide Field.Valid;
    MulByAlpha(f, h);
    var x := A(f, 1);
    MulAssoc(f, a, x, h); MulComm(f, a, x); MulAssoc(f, x, a, h);
    MulByAlpha(f, f.Mul(a, h));
  }

  lemma {:induction false} MulDoubled(f: Field, a: nat, h: nat, i: nat)
    requires f.Valid() && a <= f.N() && i < 2 && 2 * h + i <= f.N()
    ensures h <= f.N()
    ensures f.Mul(a, 2 * h + i) == Xor(if i == 1 then a else 0, Shift(f.poly, f.m, f.Mul(a, h)))
  {
    hide Xor; hide A; hide Field.Mul; hide Field.Valid;
    MulByAlphaCommutes(f, a, h);
    MulXor(f, a, 2 * h, i);
    XorCons(h, 0, 0, i); XorZero(h);
    MulOne(f, a); MulZero(f, a, 0);
    XorComm(f.Mul(a, 2 * h), f.Mul(a, i));
  }

  lemma {:induction false} MulIsProductModPoly(f: Field, a: nat, b: nat)
    requires f.Valid() && a <= f.N() && b <= f.N()
    ensures f.Mul(b, a) == Reduce(f.poly, f.m, ClMul(b, a))
    decreases b
  {
    hide Shift; hide Xor; hide Pow2;
    MulComm(f, a, b);
    if b > 0 {
      MulIsProductModPoly(f, a, b / 2);
      MulComm(f, a, b / 2);
      MulDoubled(f, a, b / 2, b % 2);
      var c := ClMul(b / 2, a);
      var t := if b % 2 == 1 then a else 0;
      ReduceXor(f.poly, f.m, t, 2 * c);
      ReduceSmall(f.poly, f.m, t);
      ReduceDouble(f.poly, f.m, c);
    }
  }
}
