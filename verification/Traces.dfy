/** The trace of GF(2^m) over its two-element field, and the map z -> z^2 + z, whose values are the elements of trace 0. */
module Traces {
  import opened Bits
  import opened BinaryPoly
  import opened GaloisField
  import opened FieldLaws

  /** x squared k times. */
  ghost function Frob(f: Field, x: nat, k: nat): (r: nat)
    requires f.Valid() && x <= f.N()
    ensures r <= f.N()
  {
    if k == 0 then x else f.Sqr(Frob(f, x, k - 1))
  }

  lemma {:induction false} FrobXor(f: Field, x: nat, y: nat, k: nat)
    requires f.Valid() && x <= f.N() && y <= f.N()
    ensures Xor(x, y) <= f.N() && Frob(f, Xor(x, y), k) == Xor(Frob(f, x, k), Frob(f, y, k))
  {
    hide Field.Valid; hide Field.Sqr; hide Xor; hide Pow2;
    ElemXor(f, x, y);
    if k > 0 {
      FrobXor(f, x, y, k - 1);
      SqrXor(f, Frob(f, x, k - 1), Frob(f, y, k - 1));
    }
  }

  lemma {:induction false} FrobSqr(f: Field, x: nat, k: nat)
    requires f.Valid() && x <= f.N()
    ensures Frob(f, f.Sqr(x), k) == Frob(f, x, k + 1)
  {
    hide Field.Valid; hide Field.Sqr; hide Pow2;
    if k > 0 { FrobSqr(f, x, k - 1); }
  }

  lemma {:induction false} FrobAlpha(f: Field, i: nat, k: nat)
    requires f.Valid()
    ensures A(f, i) <= f.N() && Frob(f, A(f, i), k) == A(f, Pow2(k) * i)
  {
    hide Field.Valid; hide Field.Sqr; hide A;
    AlphaMod(f, i);
    if k == 0 {
      assert Pow2(0) * i == i;
    } else {
      FrobAlpha(f, i, k - 1);
      SqrAlpha(f, Pow2(k - 1) * i);
      assert 2 * (Pow2(k - 1) * i) == Pow2(k) * i;
    }
  }

  /** m squarings bring every element back. */
  lemma {:induction false} FrobFull(f: Field, x: nat)
    requires f.Valid() && x <= f.N()
    ensures Frob(f, x, f.m) == x
  {
    hide Field.Valid; hide A; hide Frob; hide Pow2;
    if x == 0 {
      FrobZero(f, f.m);
    } else {
      LogKnown(f, x);
      LogAlpha(f, x);
      var i := f.log[x];
      FrobAlpha(f, i, f.m);
      OrderTimes(f, i);
      AlphaPeriod(f, i, i);
    }
  }

  lemma LogKnown(f: Field, x: nat)
    requires f.Valid() && x <= f.N()
    ensures x < |f.log|
  {
  }

  lemma OrderTimes(f: Field, i: nat)
    ensures Pow2(f.m) * i == i + i * f.N()
  {
    var p := Pow2(f.m);
    assert i * (p - 1) == i * p - i;
  }

  lemma {:induction false} FrobZero(f: Field, k: nat)
    requires f.Valid()
    ensures Frob(f, 0, k) == 0
  {
    if k > 0 { FrobZero(f, k - 1); }
  }

  /** x + x^2 + x^4 + .., k terms. */
  ghost function TraceTo(f: Field, x: nat, k: nat): (r: nat)
    requires f.Valid() && x <= f.N()
    ensures r <= f.N()
  {
    if k == 0 then 0
    else ElemXor(f, TraceTo(f, x, k - 1), Frob(f, x, k - 1)); Xor(TraceTo(f, x, k - 1), Frob(f, x, k - 1))
  }

  ghost function Trace(f: Field, x: nat): (r: nat)
    requires f.Valid() && x <= f.N()
    ensures r <= f.N()
  {
    TraceTo(f, x, f.m)
  }

  lemma {:induction false} TraceToXor(f: Field, x: nat, y: nat, k: nat)
    requires f.Valid() && x <= f.N() && y <= f.N()
    ensures Xor(x, y) <= f.N() && TraceTo(f, Xor(x, y), k) == Xor(TraceTo(f, x, k), TraceTo(f, y, k))
  {
    hide Field.Valid; hide Field.Sqr; hide Xor; hide Pow2; hide Frob;
    ElemXor(f, x, y);
    if k == 0 {
      XorZero(0);
    } else {
      TraceToXor(f, x, y, k - 1);
      FrobXor(f, x, y, k - 1);
      XorSwap(TraceTo(f, x, k - 1), TraceTo(f, y, k - 1), Frob(f, x, k - 1), Frob(f, y, k - 1));
    }
  }

  lemma {:induction false} TraceToSqr(f: Field, x: nat, k: nat)
    requires f.Valid() && x <= f.N()
    ensures TraceTo(f, f.Sqr(x), k) == f.Sqr(TraceTo(f, x, k))
    ensures TraceTo(f, f.Sqr(x), k) == Xor(TraceTo(f, x, k), Xor(x, Frob(f, x, k)))
  {
    hide Field.Valid; hide Xor; hide Pow2; hide Frob; hide Field.Sqr;
    if k == 0 {
      SqrZero(f);
      FrobNone(f, x);
      XorSelf(x); XorZero(0);
    } else {
      TraceToSqr(f, x, k - 1);
      FrobSqr(f, x, k - 1);
      FrobNext(f, x, k - 1);
      var t, u, v := TraceTo(f, x, k - 1), Frob(f, x, k - 1), Frob(f, x, k);
      SqrXor(f, t, u);
      // (t + (x + u)) + v == (t + u) + (x + v)
      XorAssoc(t, Xor(x, u), v); XorComm(x, u); XorAssoc(u, x, v); XorAssoc(t, u, Xor(x, v));
    }
  }

  lemma SqrZero(f: Field)
    requires f.Valid()
    ensures f.Sqr(0) == 0
  {
  }

  lemma FrobNone(f: Field, x: nat)
    requires f.Valid() && x <= f.N()
    ensures Frob(f, x, 0) == x
  {
  }

  lemma FrobNext(f: Field, x: nat, k: nat)
    requires f.Valid() && x <= f.N()
    ensures Frob(f, x, k + 1) == f.Sqr(Frob(f, x, k))
  {
  }

  /** The trace is 0 or 1, and the same for an element and its square. */
  lemma {:induction false} TraceBinary(f: Field, x: nat)
    requires f.Valid() && x <= f.N()
    ensures Trace(f, f.Sqr(x)) == Trace(f, x) < 2
  {
    hide Field.Valid; hide Xor; hide Pow2; hide Frob; hide Field.Sqr; hide TraceTo;
    TraceToSqr(f, x, f.m);
    FrobFull(f, x);
    XorSelf(x); XorZero(Trace(f, x));
    SqrFixed(f, Trace(f, x));
  }

  lemma {:induction false} TraceXor(f: Field, x: nat, y: nat)
    requires f.Valid() && x <= f.N() && y <= f.N()
    ensures Xor(x, y) <= f.N() && Trace(f, Xor(x, y)) == Xor(Trace(f, x), Trace(f, y))
  {
    hide Field.Valid; hide Xor; hide Pow2; hide TraceTo;
    TraceToXor(f, x, y, f.m);
  }

  // ----- z^2 + z

  ghost function Half(f: Field, z: nat): (r: nat)
    requires f.Valid() && z <= f.N()
    ensures r <= f.N()
  {
    ElemXor(f, f.Sqr(z), z);
    Xor(f.Sqr(z), z)
  }

  lemma {:induction false} HalfXor(f: Field, x: nat, y: nat)
    requires f.Valid() && x <= f.N() && y <= f.N()
    ensures Xor(x, y) <= f.N() && Half(f, Xor(x, y)) == Xor(Half(f, x), Half(f, y))
  {
    hide Field.Valid; hide Xor; hide Pow2; hide Field.Sqr;
    SqrXor(f, x, y);
    XorSwap(f.Sqr(x), f.Sqr(y), x, y);
  }

  /** Its values have trace 0. */
  lemma {:induction false} TraceOfHalf(f: Field, z: nat)
    requires f.Valid() && z <= f.N()
    ensures Trace(f, Half(f, z)) == 0
  {
    hide Field.Valid; hide Xor; hide Pow2; hide Field.Sqr; hide Trace;
    TraceXor(f, f.Sqr(z), z);
    TraceBinary(f, z);
    XorSelf(Trace(f, z));
  }

  /** Two elements have the same value exactly when they differ by 0 or 1. */
  lemma {:induction false} HalfSame(f: Field, x: nat, y: nat)
    requires f.Valid() && x <= f.N() && y <= f.N() && Half(f, x) == Half(f, y)
    ensures Xor(x, y) < 2
  {
    hide Field.Valid; hide Xor; hide Pow2; hide Field.Sqr;
    HalfXor(f, x, y);
    XorSelf(Half(f, x));
    var z := Xor(x, y);
    XorZeroEqual(f.Sqr(z), z);
    SqrFixed(f, z);
  }
}
