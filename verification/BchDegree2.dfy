/** find_poly_deg2_roots: the two positions of every locator of two errors, in closed form. */
module BchDegree2 {
  import opened Bits
  import opened BinaryPoly
  import opened GaloisField
  import opened FieldLaws
  import opened Generator
  import opened GfSeries
  import opened Locators
  import opened GfPolyDivision
  import opened BchSyndromes
  import opened BchRoots
  import opened Traces

  /** xi_tab: for each bit i, a z with z^2 + z = alpha^i or alpha^i + ak, where the trace of ak is not 0. */
  ghost predicate BaseOk(f: Field, xi: seq<nat>, ak: nat) {
    && f.Valid() && |xi| == f.m && ak <= f.N() && Trace(f, ak) != 0
    && (forall i | 0 <= i < f.m :: xi[i] <= f.N() && HalfIs(f, xi[i], A(f, i), ak))
  }

  /** z^2 + z is v or v + ak. */
  ghost predicate HalfIs(f: Field, z: nat, v: nat, ak: nat)
    requires f.Valid() && z <= f.N()
  {
    Half(f, z) == v || Half(f, z) == Xor(v, ak)
  }

  /** The first powers of alpha are single bits. */
  lemma {:induction false} AlphaBit(f: Field, i: nat)
    requires f.Valid() && i < f.m
    ensures A(f, i) == Pow2(i)
  {
    if i > 0 {
      AlphaBit(f, i - 1);
      Pow2Strict(i, f.m); Pow2Strict(i - 1, f.m - 1);
      TopBitSmall(f.m, Pow2(i - 1));
    }
  }

  lemma {:induction false} TopBitSmall(d: nat, x: nat)
    requires d > 0 && x < Pow2(d - 1)
    ensures TopBit(d, x) == 0
  {
  }

  lemma {:induction false} HalfIsXor(f: Field, r: nat, u: nat, z: nat, v: nat, ak: nat)
    requires f.Valid() && r <= f.N() && z <= f.N() && HalfIs(f, r, u, ak) && HalfIs(f, z, v, ak)
    ensures Xor(r, z) <= f.N() && HalfIs(f, Xor(r, z), Xor(u, v), ak)
  {
    hide Field.Valid; hide Xor; hide Pow2; hide Half;
    HalfXor(f, r, z);
    XorAssoc(u, v, ak);
    XorComm(v, ak); XorAssoc(u, ak, v);
    XorSwap(u, ak, v, ak); XorSelf(ak); XorZero(Xor(u, v));
  }

  /** The sum of the table over the bits of u. */
  method SumBits(f: Field, xi: seq<nat>, u: nat, ghost ak: nat) returns (r: nat)
    requires BaseOk(f, xi, ak) && u <= f.N()
    ensures r <= f.N() && HalfIs(f, r, u, ak)
  {
    hide Field.Valid; hide Xor; hide Pow2; hide Half; hide Trace; hide HalfIs;
    r := 0;
    var v: nat := u;
    HalfOfNone(f, u, ak);
    while v != 0
      invariant r <= f.N() && v <= f.N() && HalfIs(f, r, Xor(u, v), ak)
      decreases v
    {
      var i := Degree(v);
      DegreeInField(f, v);
      LeadingBit(v);
      AlphaBit(f, i);
      HalfIsXor(f, r, Xor(u, v), xi[i], A(f, i), ak);
      XorAssoc(u, v, Pow2(i));
      r := Xor(r, xi[i]);
      v := Xor(v, Pow2(i));
    }
    XorZero(u);
  }

  lemma {:induction false} HalfOfNone(f: Field, u: nat, ak: nat)
    requires f.Valid()
    ensures 0 <= f.N() && HalfIs(f, 0, Xor(u, u), ak)
  {
    SqrZero(f); XorZero(0); XorSelf(u);
  }

  lemma {:induction false} DegreeInField(f: Field, v: nat)
    requires 0 < v <= f.N()
    ensures Degree(v) < f.m
  {
    if Degree(v) >= f.m { Pow2Monotone(f.m, Degree(v)); }
  }

  /** When u is z^2 + z for some z, the sum is z or z + 1. */
  lemma {:induction false} SumIsRoot(f: Field, r: nat, z: nat, u: nat, ak: nat)
    requires f.Valid() && r <= f.N() && z <= f.N() && ak <= f.N() && Trace(f, ak) != 0 && HalfIs(f, r, u, ak) && Half(f, z) == u
    ensures Half(f, r) == u && Xor(r, z) < 2
  {
    hide Field.Valid; hide Xor; hide Pow2; hide Trace; hide Half;
    if Half(f, r) != u {
      HalfXor(f, r, z);
      XorComm(u, ak); XorCancel(ak, u);
      TraceOfHalf(f, Xor(r, z));
      assert false;
    }
    HalfSame(f, r, z);
  }

  /** find_poly_deg2_roots. */
  method Degree2Roots(f: Field, xi: seq<nat>, c: seq<nat>, ghost ak: nat) returns (roots: seq<nat>)
    requires BaseOk(f, xi, ak) && |c| >= 3 && c[0] <= f.N() && c[1] <= f.N() && c[2] <= f.N()
    ensures |roots| <= 2 && (c[0] == 1 && c[2] != 0 ==> RootsOf(f, c[..3], roots))
    ensures forall ps: seq<nat> | IsPair(f, c, ps) :: SamePositions(roots, ps)
  {
    hide Xor; hide Pow2; hide Half; hide Trace; hide HalfIs; hide IsPair; hide SamePositions; hide A;
    roots := [];
    if c[0] != 0 && c[1] != 0 {
      var l0, l1, l2 := f.log[c[0]], f.log[c[1]], f.log[c[2]];
      LogsInRange(f, c[0], c[1]); LogsInRange(f, c[2], c[2]);
      var u := f.APow(l0 + l2 + 2 * (f.N() - l1));
      var r := SumBits(f, xi, u, ak);
      ElemXor(f, f.Sqr(r), r);
      FieldSize(f); ElemXor(f, r, 1);
      LogsInRange(f, r, Xor(r, 1));
      if Xor(f.Sqr(r), r) == u {
        roots := [Quotient(f, l1, f.log[r], l2), Quotient(f, l1, f.log[Xor(r, 1)], l2)];
        if c[0] == 1 && c[2] != 0 { BothAreRoots(f, c, r, u); }
      }
      forall ps: seq<nat> | IsPair(f, c, ps) ensures SamePositions(roots, ps) {
        PairShape(f, c, ps);
        PairFound(f, c, ps, r, u, ak);
      }
    }
    forall ps: seq<nat> | IsPair(f, c, ps) ensures c[0] != 0 && c[1] != 0 { PairCoefficients(f, c, ps); }
  }

  /** Both quotients are positions of roots. */
  lemma {:induction false} BothAreRoots(f: Field, c: seq<nat>, r: nat, u: nat)
    requires f.Valid() && |c| >= 3 && c[0] == 1 && 0 < c[1] <= f.N() && 0 < c[2] <= f.N() && r <= f.N() && u <= f.N()
    requires |f.log| == f.N() + 1 && f.N() > 0 && 1 <= f.N() && Xor(f.Sqr(r), r) == u
    requires f.log[c[1]] < f.N() && f.log[r] < f.N() && Xor(r, 1) <= f.N() && f.log[Xor(r, 1)] < f.N()
    requires u == f.APow(f.log[c[0]] + f.log[c[2]] + 2 * (f.N() - f.log[c[1]]))
    ensures RootsOf(f, c[..3], [Quotient(f, f.log[c[1]], f.log[r], f.log[c[2]]), Quotient(f, f.log[c[1]], f.log[Xor(r, 1)], f.log[c[2]])])
  {
    hide Xor; hide Pow2; hide A; hide Field.Mul; hide Field.Valid; hide Half; hide Quotient; hide Field.APow; hide Field.Sqr; hide Eval; hide Inverse;
    PowQuotient(f, c[1], c[2], u);
    HalfMeans(f, r); HalfMeans(f, Xor(r, 1));
    OtherHalf(f, r);
    NotTrivial(f, r, u, c[1], c[2]);
    QuotientRoot(f, c, r, u); QuotientRoot(f, c, Xor(r, 1), u);
    var p, q := Quotient(f, f.log[c[1]], f.log[r], f.log[c[2]]), Quotient(f, f.log[c[1]], f.log[Xor(r, 1)], f.log[c[2]]);
    QuotientTimes(f, c[1], c[2], r); QuotientTimes(f, c[1], c[2], Xor(r, 1));
    assert p != q by {
      if p == q { SameQuotient(f, c[1], c[2], r, Xor(r, 1), p); NotItsNext(r); }
    }
  }

  lemma {:induction false} NotItsNext(r: nat)
    ensures Xor(r, 1) != r
  {
    XorCons(r / 2, r % 2, 0, 1);
    XorBits(r % 2, 1);
  }

  /** r and r + 1 have the same value of z^2 + z. */
  lemma {:induction false} OtherHalf(f: Field, r: nat)
    requires f.Valid() && r <= f.N() && 1 <= f.N()
    ensures Xor(r, 1) <= f.N() && Half(f, Xor(r, 1)) == Half(f, r)
  {
    hide Xor; hide Pow2; hide Field.Valid; hide Field.Mul; hide Field.Sqr;
    HalfXor(f, r, 1);
    SqrIsMul(f, 1); MulOne(f, 1); XorSelf(1);
    XorZero(Half(f, r));
  }

  /** u is not 0, so neither r nor r + 1 is. */
  lemma {:induction false} NotTrivial(f: Field, r: nat, u: nat, b: nat, d: nat)
    requires f.Valid() && r <= f.N() && u <= f.N() && 1 <= f.N() && Xor(r, 1) <= f.N() && Half(f, r) == u == Half(f, Xor(r, 1))
    requires 0 < b <= f.N() && 0 < d <= f.N() && f.Mul(u, f.Mul(b, b)) == d
    ensures r != 0 && Xor(r, 1) != 0
  {
    hide Xor; hide Pow2; hide Field.Valid; hide Field.Mul;
    MulZero(f, u, f.Mul(b, b));
    SqrZero(f); XorZero(0);
  }

  /** alpha^(the quotient) times b r is d. */
  lemma {:induction false} QuotientTimes(f: Field, b: nat, d: nat, r: nat)
    requires f.Valid() && 0 < b <= f.N() && 0 < d <= f.N() && 0 < r <= f.N() && |f.log| == f.N() + 1 && f.log[b] < f.N() && f.log[r] < f.N() && f.N() > 0
    ensures var q := Quotient(f, f.log[b], f.log[r], f.log[d]); q < f.N() && A(f, q) <= f.N() && f.Mul(A(f, q), f.Mul(r, b)) == d
  {
    hide Pow2; hide A; hide Field.Mul; hide Field.Valid;
    LogAlpha(f, b); LogAlpha(f, r); LogAlpha(f, d);
    var lb, lr, ld := f.log[b], f.log[r], f.log[d];
    var e := 2 * f.N() - lb - lr + ld;
    AlphaMod(f, e);
    AlphaMul(f, lr, lb);
    AlphaMul(f, e, lr + lb);
    AlphaPeriod(f, ld, 2);
    assert e + (lr + lb) == ld + 2 * f.N();
  }

  lemma {:induction false} SameQuotient(f: Field, b: nat, d: nat, r: nat, s: nat, q: nat)
    requires f.Valid() && 0 < b <= f.N() && 0 < d <= f.N() && 0 < r <= f.N() && 0 < s <= f.N() && A(f, q) <= f.N()
    requires f.Mul(A(f, q), f.Mul(r, b)) == d && f.Mul(A(f, q), f.Mul(s, b)) == d
    ensures r == s
  {
    hide Pow2; hide A; hide Field.Mul; hide Field.Valid;
    AlphaMod(f, q);
    MulComm(f, A(f, q), f.Mul(r, b)); MulComm(f, A(f, q), f.Mul(s, b));
    MulCancel(f, f.Mul(r, b), f.Mul(s, b), A(f, q));
    MulCancel(f, r, s, b);
  }

  /** At its inverse 1 + b x + d x^2 vanishes when r^2 + r = d / b^2. */
  lemma {:induction false} QuotientRoot(f: Field, c: seq<nat>, r: nat, u: nat)
    requires f.Valid() && |c| >= 3 && c[0] == 1 && 0 < c[1] <= f.N() && 0 < c[2] <= f.N() && 0 < r <= f.N() && u <= f.N()
    requires |f.log| == f.N() + 1 && f.N() > 0 && 1 <= f.N() && f.log[c[1]] < f.N() && f.log[r] < f.N()
    requires f.Mul(u, f.Mul(c[1], c[1])) == c[2] && Half(f, r) == u
    ensures var q := Quotient(f, f.log[c[1]], f.log[r], f.log[c[2]]); q < f.N() && Eval(f, c[..3], Inverse(f, q)) == 0
  {
    hide Xor; hide Pow2; hide A; hide Field.Mul; hide Field.Valid; hide Half; hide Quotient; hide Inverse; hide Eval;
    var b, d := c[1], c[2];
    var q := Quotient(f, f.log[b], f.log[r], f.log[d]);
    QuotientTimes(f, b, d, r);
    var x := Inverse(f, q);
    InverseIff(f, q, q);
    var X := A(f, q);
    // x d == b r
    var br := f.Mul(r, b);
    MulAssoc(f, x, X, br); MulComm(f, x, X); MulOne(f, br);
    assert f.Mul(x, d) == br;
    EvalThree(f, c, x);
    RootAlgebra(f, b, d, r, u, x);
  }

  lemma {:induction false} EvalThree(f: Field, c: seq<nat>, x: nat)
    requires f.Valid() && |c| >= 3 && c[0] <= f.N() && c[1] <= f.N() && c[2] <= f.N() && x <= f.N()
    ensures Elements(f, c[..3]) && Xor(c[1], f.Mul(x, c[2])) <= f.N()
    ensures Eval(f, c[..3], x) == Xor(c[0], f.Mul(x, Xor(c[1], f.Mul(x, c[2]))))
  {
    hide Xor; hide Pow2; hide Field.Mul; hide Field.Valid;
    var s := c[..3];
    assert s[1..] == [c[1], c[2]] && [c[1], c[2]][1..] == [c[2]] && [c[2]][1..] == [];
    ElemXor(f, c[1], f.Mul(x, c[2]));
    MulZero(f, x, 0); XorZero(c[2]);
    assert Eval(f, [], x) == 0 && Eval(f, [c[2]], x) == c[2];
  }

  /** x (b + x d) = 1 when x d = r b, u b^2 = d and r^2 + r = u. */
  lemma {:induction false} RootAlgebra(f: Field, b: nat, d: nat, r: nat, u: nat, x: nat)
    requires f.Valid() && 0 < b <= f.N() && 0 < d <= f.N() && r <= f.N() && u <= f.N() && 0 < x <= f.N() && 1 <= f.N()
    requires f.Mul(x, d) == f.Mul(r, b) && f.Mul(u, f.Mul(b, b)) == d && Half(f, r) == u
    ensures Xor(b, f.Mul(x, d)) <= f.N() && Xor(1, f.Mul(x, Xor(b, f.Mul(x, d)))) == 0
  {
    hide Xor; hide Pow2; hide Field.Mul; hide Field.Valid; hide Field.Sqr;
    var rb := f.Mul(r, b);
    ElemXor(f, b, rb);
    var w := Xor(b, rb);
    // d (x w) = r b (b + r b) = (r + r^2) b^2 = u b^2 = d
    MulComm(f, x, d); MulAssoc(f, d, x, w);
    assert f.Mul(d, f.Mul(x, w)) == f.Mul(rb, w);
    MulXor(f, rb, b, rb);
    MulAssoc(f, r, b, b);
    var bb := f.Mul(b, b);
    SquareOfProduct(f, r, b);
    SqrIsMul(f, r);
    MulXor(f, bb, f.Sqr(r), r);
    XorComm(f.Mul(r, bb), f.Mul(f.Sqr(r), bb));
    MulOne(f, d); MulComm(f, d, f.Mul(x, w));
    MulCancel(f, f.Mul(x, w), 1, d);
    XorSelf(1);
  }

  /** modulo(2 N - l1 - lr + l2). */
  function Quotient(f: Field, l1: nat, lr: nat, l2: nat): nat
    requires f.N() > 0 && l1 < f.N() && lr < f.N()
  {
    (2 * f.N() - l1 - lr + l2) % f.N()
  }

  /** The first three coefficients are those of the locator of two positions. */
  ghost predicate IsPair(f: Field, c: seq<nat>, ps: seq<nat>) {
    && f.Valid() && |ps| == 2 && Positions(f, ps) && |c| >= 3
    && exists n: nat :: n >= 3 && c[..3] == Locator(f, n, ps)[..3]
  }

  lemma PairShape(f: Field, c: seq<nat>, ps: seq<nat>)
    requires IsPair(f, c, ps)
    ensures f.Valid() && |c| >= 3 && |ps| == 2 && ps[0] < f.N() && ps[1] < f.N() && ps[0] != ps[1]
  {
    hide Field.Valid; hide Locator;
  }

  /** 1, X + Y and X Y. */
  lemma {:induction false} PairCoefficients(f: Field, c: seq<nat>, ps: seq<nat>)
    requires IsPair(f, c, ps)
    ensures f.Valid() && |c| >= 3 && |ps| == 2
    ensures var X, Y := A(f, ps[0]), A(f, ps[1]);
      && 0 < X <= f.N() && 0 < Y <= f.N()
      && c[0] == 1 && c[1] == Xor(X, Y) && 0 < c[1] <= f.N() && c[2] == f.Mul(X, Y)
  {
    hide Xor; hide Pow2; hide A; hide Field.Mul; hide Field.Valid; hide Locator;
    PairShape(f, c, ps);
    var n: nat :| n >= 3 && c[..3] == Locator(f, n, ps)[..3];
    FirstThree(c, Locator(f, n, ps));
    PairLocator(f, n, ps);
    PairDiffer(f, ps[0], ps[1]);
  }

  lemma FirstThree(c: seq<nat>, L: seq<nat>)
    requires |c| >= 3 && |L| >= 3 && c[..3] == L[..3]
    ensures c[0] == L[0] && c[1] == L[1] && c[2] == L[2]
  {
    assert c[..3][0] == c[0] && c[..3][1] == c[1] && c[..3][2] == c[2];
  }

  lemma {:induction false} PairLocator(f: Field, n: nat, ps: seq<nat>)
    requires f.Valid() && n >= 3 && |ps| == 2
    ensures var X, Y, L := A(f, ps[0]), A(f, ps[1]), Locator(f, n, ps);
      0 < X <= f.N() && 0 < Y <= f.N() && L[0] == 1 && L[1] == Xor(X, Y) && L[2] == f.Mul(X, Y)
  {
    hide Xor; hide Pow2; hide A; hide Field.Mul; hide Field.Valid; hide Locator; hide TimesFactor; hide Within;
    var p, q := ps[0], ps[1];
    AlphaMod(f, p); AlphaMod(f, q);
    var X, Y := A(f, p), A(f, q);
    LocatorNext(f, n, ps);
    var one := ps[..1];
    assert one[0] == p;
    var K := Locator(f, n, one);
    LinearLocator(f, n, one);
    LocatorShape(f, n, one);
    BeyondWithin(K, 1, 2);
    FactorAt(f, K, q, 0); FactorAt(f, K, q, 1); FactorAt(f, K, q, 2);
    XorZero(1); MulOne(f, Y); MulComm(f, Y, X); XorZero(f.Mul(X, Y));
  }

  lemma BeyondWithin(s: seq<nat>, a: int, j: nat)
    requires Within(s, a) && j < |s| && j > a
    ensures s[j] == 0
  {
  }

  lemma {:induction false} PairDiffer(f: Field, p: nat, q: nat)
    requires f.Valid() && p < f.N() && q < f.N() && p != q
    ensures 0 < Xor(A(f, p), A(f, q)) <= f.N()
  {
    hide Xor; hide Pow2; hide A; hide Field.Valid;
    AlphaMod(f, p); AlphaMod(f, q);
    ModSmall(p, f.N()); ModSmall(q, f.N());
    ElemXor(f, A(f, p), A(f, q));
    if Xor(A(f, p), A(f, q)) == 0 { XorZeroEqual(A(f, p), A(f, q)); }
  }

  /** The sum, the quotients and the positions. */
  lemma {:induction false} PairFound(f: Field, c: seq<nat>, ps: seq<nat>, r: nat, u: nat, ak: nat)
    requires f.Valid() && IsPair(f, c, ps) && |c| >= 3 && |ps| == 2 && ps[0] < f.N() && ps[1] < f.N() && ps[0] != ps[1]
    requires r <= f.N() && u <= f.N() && ak <= f.N() && Trace(f, ak) != 0 && HalfIs(f, r, u, ak)
    requires |f.log| == f.N() + 1 && c[0] <= f.N() && c[1] <= f.N() && c[2] <= f.N() && f.N() > 0 && 1 <= f.N()
    requires f.log[c[1]] < f.N() && f.log[r] < f.N() && Xor(r, 1) <= f.N() && f.log[Xor(r, 1)] < f.N()
    requires u == f.APow(f.log[c[0]] + f.log[c[2]] + 2 * (f.N() - f.log[c[1]]))
    ensures Xor(f.Sqr(r), r) == u
    ensures SamePositions([Quotient(f, f.log[c[1]], f.log[r], f.log[c[2]]), Quotient(f, f.log[c[1]], f.log[Xor(r, 1)], f.log[c[2]])], ps)
  {
    hide Xor; hide Pow2; hide A; hide Field.Mul; hide Field.Valid; hide IsPair; hide Trace; hide Half; hide Quotient; hide Field.APow;
    PairCoefficients(f, c, ps);
    var X, Y := A(f, ps[0]), A(f, ps[1]);
    var z := f.Div(X, c[1]);
    TransformedRoot(f, X, Y, c[1], c[2], z, u);
    SumIsRoot(f, r, z, u, ak);
    HalfMeans(f, r);
    OneApart(r, z);
    OtherRoot(f, X, Y, c[1], z);
    var rs := [Quotient(f, f.log[c[1]], f.log[r], f.log[c[2]]), Quotient(f, f.log[c[1]], f.log[Xor(r, 1)], f.log[c[2]])];
    if r == z {
      QuotientIs(f, X, Y, c[1], z, ps[1]); QuotientIs(f, Y, X, c[1], Xor(z, 1), ps[0]);
      MulComm(f, X, Y);
      assert rs == [ps[1], ps[0]];
    } else {
      XorCancel(z, 1);
      QuotientIs(f, Y, X, c[1], Xor(z, 1), ps[0]); QuotientIs(f, X, Y, c[1], z, ps[1]);
      MulComm(f, X, Y);
      assert rs == [ps[0], ps[1]];
    }
    BothOrders(rs, ps);
  }

  lemma HalfMeans(f: Field, r: nat)
    requires f.Valid() && r <= f.N()
    ensures Half(f, r) == Xor(f.Sqr(r), r)
  {
  }

  lemma BothOrders(rs: seq<nat>, ps: seq<nat>)
    requires |ps| == 2 && ps[0] != ps[1] && (rs == [ps[1], ps[0]] || rs == [ps[0], ps[1]])
    ensures SamePositions(rs, ps)
  {
    assert ps == [ps[0], ps[1]];
  }

  /** Elements that differ by 0 or 1. */
  lemma {:induction false} OneApart(r: nat, z: nat)
    requires Xor(r, z) < 2
    ensures r == z || r == Xor(z, 1)
  {
    hide Xor;
    XorCancel(r, z); XorComm(z, 1); XorComm(r, z);
    if Xor(r, z) == 0 { XorZeroEqual(r, z); } else { assert Xor(Xor(r, z), z) == r; XorComm(1, z); }
  }

  /** z = X / (X + Y) solves z^2 + z = u, where u (X + Y)^2 = X Y. */
  lemma {:induction false} TransformedRoot(f: Field, X: nat, Y: nat, b: nat, d: nat, z: nat, u: nat)
    requires f.Valid() && 0 < X <= f.N() && 0 < Y <= f.N() && b == Xor(X, Y) && 0 < b <= f.N() && d == f.Mul(X, Y) && z == f.Div(X, b)
    requires |f.log| == f.N() + 1 && 1 <= f.N() && d <= f.N() && f.log[b] < f.N() && u <= f.N()
    requires u == f.APow(f.log[1] + f.log[d] + 2 * (f.N() - f.log[b]))
    ensures z <= f.N() && Half(f, z) == u
  {
    hide Xor; hide Pow2; hide A; hide Field.Mul; hide Field.Valid; hide Field.APow; hide Field.Div; hide Field.Sqr;
    var bb := f.Mul(b, b);
    MulZero(f, b, b); MulZero(f, X, Y);
    // u b^2 == d
    PowQuotient(f, b, d, u);
    // (z^2 + z) b^2 == X^2 + X (X + Y) == X Y
    DivMul(f, X, b);
    SqrIsMul(f, z);
    var w := f.Mul(z, z);
    assert f.Mul(w, bb) == f.Mul(X, X) by { SquareOfProduct(f, z, b); }
    assert f.Mul(z, bb) == f.Mul(X, b) by { MulAssoc(f, z, b, b); }
    ElemXor(f, w, z);
    MulXor(f, bb, w, z);
    MulXor(f, X, X, Y);
    var xx := f.Mul(X, X);
    XorComm(xx, Xor(xx, d)); XorComm(xx, d); XorCancel(d, xx);
    XorComm(Xor(d, xx), xx);
    MulCancel(f, Xor(w, z), u, bb);
  }

  lemma {:induction false} SquareOfProduct(f: Field, z: nat, b: nat)
    requires f.Valid() && z <= f.N() && b <= f.N()
    ensures f.Mul(f.Mul(z, z), f.Mul(b, b)) == f.Mul(f.Mul(z, b), f.Mul(z, b))
  {
    hide Pow2; hide Field.Mul; hide Field.Valid;
    var zb := f.Mul(z, b);
    MulAssoc(f, z, z, f.Mul(b, b)); MulAssoc(f, z, b, b);
    MulComm(f, zb, b); MulAssoc(f, z, b, zb);
    MulComm(f, z, b);
  }

  /** alpha^(log d - 2 log b), with one full turn for each minus. */
  lemma {:induction false} PowQuotient(f: Field, b: nat, d: nat, u: nat)
    requires f.Valid() && 0 < b <= f.N() && 0 < d <= f.N() && |f.log| == f.N() + 1 && 1 <= f.N() && f.log[b] < f.N() && u <= f.N()
    requires u == f.APow(f.log[1] + f.log[d] + 2 * (f.N() - f.log[b]))
    ensures f.Mul(u, f.Mul(b, b)) == d
  {
    hide Pow2; hide A; hide Field.Mul; hide Field.Valid; hide Field.APow;
    LogAlpha(f, b); LogAlpha(f, d);
    AlphaMod(f, 0); FieldSize(f);
    assert f.log[1] == 0 by { ZeroMod(f.N()); }
    var lb, ld, n := f.log[b], f.log[d], f.N();
    var e := ld + 2 * (n - lb);
    AlphaMod(f, e);
    AlphaMul(f, lb, lb);
    AlphaMul(f, e, lb + lb);
    AlphaPeriod(f, ld, 2);
    assert e + (lb + lb) == ld + 2 * n;
  }

  lemma ZeroMod(n: nat)
    requires n > 0
    ensures 0 % n == 0
  {
  }

  /** z + 1 is Y / (X + Y). */
  lemma {:induction false} OtherRoot(f: Field, X: nat, Y: nat, b: nat, z: nat)
    requires f.Valid() && 0 < X <= f.N() && 0 < Y <= f.N() && b == Xor(X, Y) && 0 < b <= f.N() && z == f.Div(X, b)
    ensures 1 <= f.N() && Xor(z, 1) <= f.N() && f.Mul(z, b) == X && f.Mul(Xor(z, 1), b) == Y && z != 0 && Xor(z, 1) != 0
  {
    hide Xor; hide Pow2; hide Field.Mul; hide Field.Valid; hide Field.Div;
    FieldSize(f);
    DivMul(f, X, b);
    ElemXor(f, z, 1);
    MulXor(f, b, z, 1);
    MulOne(f, b);
    XorComm(X, b); XorComm(X, Y); XorCancel(Y, X);
    MulZero(f, z, b); MulZero(f, Xor(z, 1), b);
  }

  /** The quotient XY / ((X + Y) r) with (X + Y) r = X is Y, whose logarithm is its position. */
  lemma {:induction false} QuotientIs(f: Field, X: nat, Y: nat, b: nat, r: nat, q: nat)
    requires f.Valid() && 0 < X <= f.N() && 0 < Y <= f.N() && 0 < b <= f.N() && 0 < r <= f.N() && f.Mul(r, b) == X
    requires q < f.N() && Y == A(f, q) && |f.log| == f.N() + 1 && f.log[b] < f.N() && f.log[r] < f.N() && f.Mul(X, Y) <= f.N()
    ensures f.N() > 0 && Quotient(f, f.log[b], f.log[r], f.log[f.Mul(X, Y)]) == q
  {
    hide Pow2; hide A; hide Field.Mul; hide Field.Valid;
    MulZero(f, X, Y);
    LogAlpha(f, b); LogAlpha(f, r); LogAlpha(f, f.Mul(X, Y));
    var lb, lr, ld := f.log[b], f.log[r], f.log[f.Mul(X, Y)];
    var e := 2 * f.N() - lb - lr + ld;
    AlphaMul(f, lr, lb);
    AlphaMul(f, e, lr + lb);
    AlphaPeriod(f, ld, 2);
    assert e + (lr + lb) == ld + 2 * f.N();
    MulComm(f, X, Y);
    MulCancel(f, A(f, e), Y, X);
    SameExponent(f, e, q);
  }

  lemma {:induction false} SameExponent(f: Field, e: nat, q: nat)
    requires f.Valid() && q < f.N() && A(f, e) == A(f, q)
    ensures f.N() > 0 && e % f.N() == q
  {
    hide Pow2; hide A; hide Field.Valid;
    AlphaMod(f, e); AlphaMod(f, q);
    ModSmall(q, f.N());
  }
}
