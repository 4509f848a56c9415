/** Values of binary polynomials in GF(2^m), and why division by a polynomial that vanishes at x
    does not change the value at x.
 */
module BinaryEval {
  import opened Bits
  import opened BinaryPoly
  import opened GaloisField
  import opened FieldLaws
  import opened Generator

  ghost function EvalBits(f: Field, v: nat, x: nat): (r: nat)
    requires f.Valid() && x <= f.N()
    ensures r <= f.N()
  {
    if v == 0 then 0
    else FieldSize(f); ElemXor(f, v % 2, f.Mul(x, EvalBits(f, v / 2, x))); Xor(v % 2, f.Mul(x, EvalBits(f, v / 2, x)))
  }

  lemma {:induction false} EvalCons(f: Field, v: nat, i: nat, x: nat)
    requires f.Valid() && x <= f.N() && i < 2
    ensures EvalBits(f, 2 * v + i, x) == Xor(i, f.Mul(x, EvalBits(f, v, x)))
  {
    var w := 2 * v + i;
    assert w / 2 == v && w % 2 == i;
    if w == 0 { MulZero(f, x, 0); XorZero(0); }
  }

  lemma {:induction false} EvalXor(f: Field, u: nat, v: nat, x: nat)
    requires f.Valid() && x <= f.N()
    ensures EvalBits(f, Xor(u, v), x) == Xor(EvalBits(f, u, x), EvalBits(f, v, x))
    decreases u + v
  {
    hide Xor; hide Field.Mul; hide Field.Valid; hide Pow2;
    if u == 0 {
      XorZero(v); XorZero(EvalBits(f, v, x));
    } else if v == 0 {
      XorZero(u); XorZero(EvalBits(f, u, x));
    } else {
      EvalXor(f, u / 2, v / 2, x);
      EvalXorStep(f, u / 2, u % 2, v / 2, v % 2, x);
    }
  }

  lemma {:induction false} EvalXorStep(f: Field, u: nat, i: nat, v: nat, j: nat, x: nat)
    requires f.Valid() && x <= f.N() && i < 2 && j < 2
    requires EvalBits(f, Xor(u, v), x) == Xor(EvalBits(f, u, x), EvalBits(f, v, x))
    ensures EvalBits(f, Xor(2 * u + i, 2 * v + j), x)
         == Xor(EvalBits(f, 2 * u + i, x), EvalBits(f, 2 * v + j, x))
  {
    hide Xor; hide Field.Mul; hide Field.Valid; hide Pow2; hide EvalBits;
    XorCons(u, i, v, j);
    EvalCons(f, u, i, x); EvalCons(f, v, j, x); EvalCons(f, Xor(u, v), (i + j) % 2, x);
    MulXor(f, x, EvalBits(f, u, x), EvalBits(f, v, x));
    XorBits(i, j);
    XorSwap(i, f.Mul(x, EvalBits(f, u, x)), j, f.Mul(x, EvalBits(f, v, x)));
  }

  lemma {:induction false} EvalReduce(f: Field, g: nat, d: nat, v: nat, x: nat)
    requires f.Valid() && x <= f.N() && EvalBits(f, g, x) == 0
    ensures EvalBits(f, Reduce(g, d, v), x) == EvalBits(f, v, x)
  {
    hide Xor; hide Field.Mul; hide Field.Valid; hide Pow2; hide EvalBits;
    if v == 0 {
    } else {
      var r, i := Reduce(g, d, v / 2), v % 2;
      EvalReduce(f, g, d, v / 2, x);
      EvalShift(f, g, d, r, x);
      EvalXor(f, Shift(g, d, r), i, x);
      EvalCons(f, 0, i, x); EvalCons(f, 0, 0, x); EvalCons(f, v / 2, i, x);
      EvalZero(f, x); MulZero(f, x, 0); XorZero(i);
      XorComm(i, f.Mul(x, EvalBits(f, r, x)));
    }
  }

  lemma EvalZero(f: Field, x: nat)
    requires f.Valid() && x <= f.N()
    ensures EvalBits(f, 0, x) == 0
  {
  }

  lemma {:induction false} EvalShift(f: Field, g: nat, d: nat, r: nat, x: nat)
    requires f.Valid() && x <= f.N() && EvalBits(f, g, x) == 0
    ensures EvalBits(f, Shift(g, d, r), x) == f.Mul(x, EvalBits(f, r, x))
  {
    hide Xor; hide Field.Mul; hide Field.Valid; hide Pow2; hide EvalBits;
    EvalXor(f, 2 * r, g, x);
    EvalCons(f, r, 0, x);
    XorZero(f.Mul(x, EvalBits(f, r, x)));
  }

  /** The value of x^p at alpha^e is alpha^(e p). */
  lemma {:induction false} EvalMonomial(f: Field, p: nat, e: nat)
    requires f.Valid()
    ensures A(f, e) <= f.N() && EvalBits(f, Pow2(p), A(f, e)) == A(f, e * p)
  {
    hide A; hide Xor; hide Field.Mul; hide Field.Valid; hide EvalBits;
    AlphaMod(f, e); FieldSize(f);
    var x := A(f, e);
    if p == 0 {
      EvalCons(f, 0, 1, x); EvalZero(f, x); MulZero(f, x, 0); XorZero(1);
      assert e * p == 0;
    } else {
      EvalMonomial(f, p - 1, e);
      EvalCons(f, Pow2(p - 1), 0, x);
      AlphaMul(f, e, e * (p - 1));
      assert e + e * (p - 1) == e * p;
      XorZero(A(f, e * p));
    }
  }

  // ----- the number of a binary coefficient sequence

  function ToBits(c: seq<nat>): nat {
    if c == [] then 0 else (if c[0] != 0 then 1 else 0) + 2 * ToBits(c[1..])
  }

  lemma {:induction false} ToBitsBound(c: seq<nat>)
    ensures ToBits(c) < Pow2(|c|)
    ensures c != [] && c[|c| - 1] != 0 ==> ToBits(c) >= Pow2(|c| - 1)
  {
    if c != [] { ToBitsBound(c[1..]); }
  }

  lemma {:induction false} ToBitsAppend(a: seq<nat>, b: seq<nat>)
    ensures ToBits(a + b) == ToBits(a) + Pow2(|a|) * ToBits(b)
  {
    if a == [] {
      assert a + b == b;
    } else {
      ToBitsAppend(a[1..], b);
      assert (a + b)[1..] == a[1..] + b;
      assert 2 * (Pow2(|a| - 1) * ToBits(b)) == Pow2(|a|) * ToBits(b);
    }
  }

  lemma {:induction false} EvalToBits(f: Field, c: seq<nat>, x: nat)
    requires f.Valid() && x <= f.N() && Elements(f, c)
    requires forall i | 0 <= i < |c| :: c[i] < 2
    ensures Eval(f, c, x) == EvalBits(f, ToBits(c), x)
  {
    hide Xor; hide Field.Mul; hide Field.Valid; hide EvalBits; hide Pow2;
    if c == [] {
      EvalZero(f, x);
    } else {
      EvalToBits(f, c[1..], x);
      EvalCons(f, ToBits(c[1..]), c[0], x);
    }
  }
}
