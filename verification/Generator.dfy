/** compute_generator_polynomial: the product of (x + alpha^r) over the cyclotomic cosets of
    1, 3, .., 2t-1, and why its coefficients are all 0 or 1.

    A polynomial over GF(2^m) is the sequence of its coefficients, constant term first.
 */
module Generator {
  import opened Bits
  import opened BinaryPoly
  import opened GaloisField
  import opened FieldLaws

  ghost predicate Elements(f: Field, c: seq<nat>) {
    forall i | 0 <= i < |c| :: c[i] <= f.N()
  }

  /** k + (x + r) * c(x). */
  ghost function TimesRoot(f: Field, c: seq<nat>, r: nat, k: nat): (p: seq<nat>)
    requires f.Valid() && Elements(f, c) && r <= f.N() && k <= f.N()
    ensures |p| == |c| + 1 && Elements(f, p)
  {
    if c == [] then [k]
    else ElemXor(f, f.Mul(c[0], r), k); [Xor(f.Mul(c[0], r), k)] + TimesRoot(f, c[1..], r, c[0])
  }

  /** Horner evaluation. */
  ghost function Eval(f: Field, c: seq<nat>, x: nat): (v: nat)
    requires f.Valid() && Elements(f, c) && x <= f.N()
    ensures v <= f.N()
  {
    if c == [] then 0
    else ElemXor(f, c[0], f.Mul(x, Eval(f, c[1..], x))); Xor(c[0], f.Mul(x, Eval(f, c[1..], x)))
  }

  /** The product of (x + alpha^e) over a list of exponents. */
  ghost function Product(f: Field, es: seq<nat>): (p: seq<nat>)
    requires f.Valid()
    ensures |p| == |es| + 1 && Elements(f, p)
    ensures p[|es|] == 1
  {
    FieldSize(f);
    if es == [] then [1]
    else
      var e := es[|es| - 1];
      var q := Product(f, es[..|es| - 1]);
      AlphaMod(f, e);
      LeadingCoefficient(f, q, A(f, e), 0);
      TimesRoot(f, q, A(f, e), 0)
  }

  lemma {:induction false} LeadingCoefficient(f: Field, c: seq<nat>, r: nat, k: nat)
    requires f.Valid() && Elements(f, c) && r <= f.N() && k <= f.N()
    ensures TimesRoot(f, c, r, k)[|c|] == if c == [] then k else c[|c| - 1]
  {
    if c != [] { LeadingCoefficient(f, c[1..], r, c[0]); }
  }

  // ----- roots

  lemma {:induction false} EvalTimesRoot(f: Field, c: seq<nat>, r: nat, k: nat, x: nat)
    requires f.Valid() && Elements(f, c) && r <= f.N() && k <= f.N() && x <= f.N()
    ensures Xor(x, r) <= f.N()
    ensures Eval(f, TimesRoot(f, c, r, k), x) == Xor(k, f.Mul(Xor(x, r), Eval(f, c, x)))
  {
    ElemXor(f, x, r);
    if c == [] {
      assert TimesRoot(f, c, r, k)[1..] == [];
    } else {
      var a, t := c[0], c[1..];
      EvalTimesRoot(f, t, r, a, x);
      var p := TimesRoot(f, c, r, k);
      assert p[1..] == TimesRoot(f, t, r, a);
      EvalRootStep(f, a, Eval(f, t, x), r, k, x);
    }
  }

  lemma {:induction false} EvalRootStep(f: Field, a: nat, v: nat, r: nat, k: nat, x: nat)
    requires f.Valid() && a <= f.N() && v <= f.N() && r <= f.N() && k <= f.N() && x <= f.N()
    ensures var s := Xor(x, r);
      && s <= f.N() && Xor(a, f.Mul(s, v)) <= f.N() && Xor(a, f.Mul(x, v)) <= f.N()
      && Xor(Xor(f.Mul(a, r), k), f.Mul(x, Xor(a, f.Mul(s, v)))) == Xor(k, f.Mul(s, Xor(a, f.Mul(x, v))))
  {
    hide Xor; hide Field.Mul; hide Field.Valid; hide Pow2;
    ElemXor(f, x, r);
    var s := Xor(x, r);
    ElemXor(f, a, f.Mul(s, v)); ElemXor(f, a, f.Mul(x, v));
    MulXor(f, x, a, f.Mul(s, v));
    MulXor(f, s, a, f.Mul(x, v));
    MulAssoc(f, x, s, v); MulAssoc(f, s, x, v); MulComm(f, x, s);
    var y := f.Mul(x, f.Mul(s, v));
    MulXor(f, a, x, r); MulComm(f, a, x); MulComm(f, a, r);
    var ax, ar := f.Mul(a, x), f.Mul(a, r);
    // left: (ar + k) + (ax + y); right: k + ((ax + ar) + y)
    XorComm(ar, k); XorAssoc(k, ar, Xor(ax, y));
    XorAssoc(ar, ax, y); XorComm(ar, ax);
  }

  lemma {:induction false} ProductRoot(f: Field, es: seq<nat>, i: nat)
    requires f.Valid() && i < |es|
    ensures A(f, es[i]) <= f.N() && Eval(f, Product(f, es), A(f, es[i])) == 0
  {
    hide A; hide Xor; hide Field.Mul; hide Field.Valid; hide TimesRoot; hide Eval; hide Product; hide Pow2;
    AlphaMod(f, es[i]);
    var x, last := A(f, es[i]), |es| - 1;
    var e, q := es[last], Product(f, es[..last]);
    AlphaMod(f, e);
    assert es == es[..last] + [e];
    ProductSnoc(f, es[..last], e);
    EvalTimesRoot(f, q, A(f, e), 0, x);
    var v := Xor(x, A(f, e));
    XorZero(f.Mul(v, Eval(f, q, x)));
    if i < last { ProductRoot(f, es[..last], i); }
    XorSelf(x);
    MulZero(f, v, Eval(f, q, x));
  }

  // ----- the product does not depend on the order of its factors

  ghost function Coef(c: seq<nat>, j: int): nat {
    if 0 <= j < |c| then c[j] else 0
  }

  lemma {:induction false} CoefTimesRoot(f: Field, c: seq<nat>, r: nat, k: nat, j: nat)
    requires f.Valid() && Elements(f, c) && r <= f.N() && k <= f.N()
    ensures Coef(TimesRoot(f, c, r, k), j)
         == Xor(f.Mul(Coef(c, j), r), if j == 0 then k else Coef(c, j - 1))
  {
    if c == [] {
      XorZero(k); XorZero(0);
    } else {
      if j > 0 {
        CoefTimesRoot(f, c[1..], r, c[0], j - 1);
      }
    }
  }

  lemma {:induction false} CoefSwap(f: Field, x: nat, y: nat, z: nat, a: nat, b: nat)
    requires f.Valid() && x <= f.N() && y <= f.N() && z <= f.N() && a <= f.N() && b <= f.N()
    ensures Xor(f.Mul(x, a), y) <= f.N() && Xor(f.Mul(x, b), y) <= f.N()
    ensures Xor(f.Mul(Xor(f.Mul(x, a), y), b), Xor(f.Mul(y, a), z))
         == Xor(f.Mul(Xor(f.Mul(x, b), y), a), Xor(f.Mul(y, b), z))
  {
    hide Xor; hide Field.Mul; hide Field.Valid; hide Pow2;
    ElemXor(f, f.Mul(x, a), y); ElemXor(f, f.Mul(x, b), y);
    MulXor(f, b, f.Mul(x, a), y); MulXor(f, a, f.Mul(x, b), y);
    MulAssoc(f, x, a, b); MulAssoc(f, x, b, a); MulComm(f, a, b);
    var p, u, v := f.Mul(f.Mul(x, a), b), f.Mul(y, a), f.Mul(y, b);
    XorAssoc(p, v, Xor(u, z)); XorAssoc(v, u, z); XorComm(u, v);
    XorAssoc(u, v, z); XorAssoc(p, u, Xor(v, z));
  }

  lemma {:induction false} CoefTwoRoots(f: Field, c: seq<nat>, a: nat, b: nat, j: nat)
    requires f.Valid() && Elements(f, c) && a <= f.N() && b <= f.N()
    ensures Coef(TimesRoot(f, TimesRoot(f, c, a, 0), b, 0), j)
         == (ElemXor(f, f.Mul(Coef(c, j), a), Coef(c, j - 1));
             Xor(f.Mul(Xor(f.Mul(Coef(c, j), a), Coef(c, j - 1)), b),
                 Xor(f.Mul(Coef(c, j - 1), a), Coef(c, j - 2))))
  {
    hide Xor; hide Field.Mul; hide Field.Valid; hide TimesRoot; hide Pow2;
    var u := TimesRoot(f, c, a, 0);
    CoefTimesRoot(f, u, b, 0, j);
    CoefTimesRoot(f, c, a, 0, j);
    if j > 0 {
      CoefTimesRoot(f, c, a, 0, j - 1);
    } else {
      MulZero(f, 0, a); XorZero(0);
    }
  }

  lemma {:induction false} RootsCommute(f: Field, c: seq<nat>, a: nat, b: nat)
    requires f.Valid() && Elements(f, c) && a <= f.N() && b <= f.N()
    ensures TimesRoot(f, TimesRoot(f, c, a, 0), b, 0) == TimesRoot(f, TimesRoot(f, c, b, 0), a, 0)
  {
    hide Xor; hide Field.Mul; hide Field.Valid; hide TimesRoot; hide Pow2;
    var u, v := TimesRoot(f, c, a, 0), TimesRoot(f, c, b, 0);
    var p, q := TimesRoot(f, u, b, 0), TimesRoot(f, v, a, 0);
    forall j: nat | j < |p| ensures p[j] == q[j] {
      CoefTwoRoots(f, c, a, b, j); CoefTwoRoots(f, c, b, a, j);
      CoefSwap(f, Coef(c, j), Coef(c, j - 1), Coef(c, j - 2), a, b);
      assert p[j] == Coef(p, j) && q[j] == Coef(q, j);
    }
  }

  lemma {:induction false} MoveToEnd(f: Field, es: seq<nat>, k: nat)
    requires f.Valid() && k < |es|
    ensures Product(f, es) == Product(f, es[..k] + es[k + 1..] + [es[k]])
  {
    hide A; hide TimesRoot; hide Product; hide Field.Valid; hide Pow2;
    var last := |es| - 1;
    var e := es[k];
    if k == last {
      assert es[..k] + es[k + 1..] + [e] == es;
    } else {
      var q, z := es[..last], es[last];
      MoveToEnd(f, q, k);
      var rest := q[..k] + q[k + 1..];
      assert es == q + [z];
      ProductSnoc(f, q, z);
      AlphaMod(f, e); AlphaMod(f, z);
      ProductSnoc(f, rest, e);
      ProductSnoc(f, rest, z); ProductSnoc(f, rest + [z], e);
      RootsCommute(f, Product(f, rest), A(f, e), A(f, z));
      assert es[..k] + es[k + 1..] == rest + [z];
      assert q[k] == e;
    }
  }

  lemma {:induction false} ProductSnoc(f: Field, es: seq<nat>, e: nat)
    requires f.Valid()
    ensures A(f, e) <= f.N() && Product(f, es + [e]) == TimesRoot(f, Product(f, es), A(f, e), 0)
  {
    AlphaMod(f, e);
    var s := es + [e];
    assert s[..|s| - 1] == es && s[|s| - 1] == e;
  }

  lemma RemoveOne(s: seq<nat>, k: nat)
    requires k < |s|
    ensures multiset(s[..k] + s[k + 1..]) == multiset(s) - multiset{s[k]}
  {
    assert s == s[..k] + [s[k]] + s[k + 1..];
  }

  lemma {:induction false} ProductPermuted(f: Field, es: seq<nat>, fs: seq<nat>)
    requires f.Valid() && multiset(es) == multiset(fs)
    ensures Product(f, es) == Product(f, fs)
    decreases |es|
  {
    hide A; hide TimesRoot; hide Product; hide Field.Valid; hide Pow2;
    if es == [] {
      assert |fs| == |multiset(fs)| == 0;
      assert fs == [];
    } else {
      var last := |es| - 1;
      var e, q := es[last], es[..last];
      RemoveOne(es, last);
      assert q + es[last + 1..] == q && es == q + [e];
      assert e in multiset(fs);
      var k :| 0 <= k < |fs| && fs[k] == e;
      var rest := fs[..k] + fs[k + 1..];
      RemoveOne(fs, k);
      MoveToEnd(f, fs, k);
      ProductPermuted(f, q, rest);
      ProductSnoc(f, rest, e);
      ProductSnoc(f, q, e);
    }
  }

  // ----- squaring every coefficient squares every root

  ghost function Squares(f: Field, c: seq<nat>): (s: seq<nat>)
    requires f.Valid() && Elements(f, c)
    ensures |s| == |c| && Elements(f, s)
    ensures forall i | 0 <= i < |c| :: s[i] == f.Sqr(c[i])
  {
    if c == [] then [] else [f.Sqr(c[0])] + Squares(f, c[1..])
  }

  lemma {:induction false} SquareTimesRoot(f: Field, c: seq<nat>, r: nat, k: nat)
    requires f.Valid() && Elements(f, c) && r <= f.N() && k <= f.N()
    ensures Squares(f, TimesRoot(f, c, r, k)) == TimesRoot(f, Squares(f, c), f.Sqr(r), f.Sqr(k))
  {
    if c != [] {
      var a := c[0];
      SquareTimesRoot(f, c[1..], r, a);
      var p := TimesRoot(f, c, r, k);
      assert p[1..] == TimesRoot(f, c[1..], r, a);
      assert Squares(f, c)[1..] == Squares(f, c[1..]);
      SquareStep(f, a, r, k);
    }
  }

  lemma {:induction false} SquareStep(f: Field, a: nat, r: nat, k: nat)
    requires f.Valid() && a <= f.N() && r <= f.N() && k <= f.N()
    ensures Xor(f.Mul(a, r), k) <= f.N()
    ensures f.Sqr(Xor(f.Mul(a, r), k)) == Xor(f.Mul(f.Sqr(a), f.Sqr(r)), f.Sqr(k))
  {
    SqrIsMul(f, a); SqrIsMul(f, r); SqrIsMul(f, f.Mul(a, r));
    hide Xor; hide Field.Mul; hide Field.Valid; hide Field.Sqr; hide Pow2;
    SqrXor(f, f.Mul(a, r), k);
    MulAssoc(f, a, r, f.Mul(a, r)); MulAssoc(f, r, a, r); MulComm(f, r, a);
    MulAssoc(f, a, r, r); MulAssoc(f, a, a, f.Mul(r, r));
  }

  ghost function Doubled(n: nat, es: seq<nat>): (ds: seq<nat>)
    ensures |ds| == |es| && forall i | 0 <= i < |es| :: ds[i] == Double(n, es[i])
  {
    if es == [] then [] else Doubled(n, es[..|es| - 1]) + [Double(n, es[|es| - 1])]
  }

  /** mod_s(2 * r). */
  function Double(n: nat, r: nat): nat {
    if 2 * r < n then 2 * r else 2 * r - n
  }

  lemma {:induction false} SquareProduct(f: Field, es: seq<nat>)
    requires f.Valid() && forall i | 0 <= i < |es| :: es[i] < f.N()
    ensures Squares(f, Product(f, es)) == Product(f, Doubled(f.N(), es))
  {
    FieldSize(f);
    if es == [] {
      SqrAlpha(f, 0);
      assert Squares(f, [1]) == [1];
    } else {
      var last := |es| - 1;
      var e, q := es[last], es[..last];
      SquareProduct(f, q);
      AlphaMod(f, e);
      SquareTimesRoot(f, Product(f, q), A(f, e), 0);
      SqrAlpha(f, e);
      DoubleAlpha(f, e);
      ProductSnoc(f, Doubled(f.N(), q), Double(f.N(), e));
    }
  }

  lemma {:induction false} DoubleAlpha(f: Field, e: nat)
    requires f.Valid() && e < f.N()
    ensures A(f, Double(f.N(), e)) == A(f, 2 * e)
  {
    if 2 * e >= f.N() {
      AlphaPeriod(f, 2 * e - f.N(), 1);
      assert 2 * e - f.N() + 1 * f.N() == 2 * e;
    }
  }

  // ----- a product over exponents closed under doubling is binary

  ghost predicate Distinct(es: seq<nat>) {
    forall i, j | 0 <= i < j < |es| :: es[i] != es[j]
  }

  lemma {:induction false} DistinctMultiset(es: seq<nat>, x: nat)
    requires Distinct(es)
    ensures multiset(es)[x] == if x in es then 1 else 0
  {
    if es != [] {
      var q := es[..|es| - 1];
      DistinctMultiset(q, x);
      assert es == q + [es[|es| - 1]];
    }
  }

  lemma DoubleInjective(n: nat, a: nat, b: nat)
    requires n % 2 == 1 && a < n && b < n && Double(n, a) == Double(n, b)
    ensures a == b
  {
  }

  lemma {:induction false} SameSize(a: multiset<nat>, b: multiset<nat>)
    requires a <= b && |a| == |b|
    ensures a == b
  {
    assert b == a + (b - a);
    assert |b| == |a| + |b - a|;
  }

  lemma {:induction false} DoublingPermutes(n: nat, es: seq<nat>)
    requires n % 2 == 1 && Distinct(es)
    requires forall i | 0 <= i < |es| :: es[i] < n && Double(n, es[i]) in es
    ensures multiset(Doubled(n, es)) == multiset(es)
  {
    hide Doubled; hide Double;
    var ds := Doubled(n, es);
    forall i, j | 0 <= i < j < |ds| ensures ds[i] != ds[j] {
      if ds[i] == ds[j] { DoubleInjective(n, es[i], es[j]); }
    }
    forall x: nat ensures multiset(ds)[x] <= multiset(es)[x] {
      DistinctMultiset(ds, x); DistinctMultiset(es, x);
      if x in ds { var i :| 0 <= i < |ds| && ds[i] == x; }
    }
    SameSize(multiset(ds), multiset(es));
  }

  lemma OrderOdd(f: Field)
    requires f.Valid()
    ensures f.N() % 2 == 1
  {
    OrderOfDegree(f.m);
  }

  lemma OrderOfDegree(m: nat)
    requires m > 0
    ensures (Pow2(m) - 1) % 2 == 1
  {
    OddBelowDouble(Pow2(m), Pow2(m - 1));
  }

  lemma OddBelowDouble(p: nat, h: nat)
    requires p == 2 * h && h > 0
    ensures (p - 1) % 2 == 1
  {
  }

  lemma {:induction false} SquaresUnchanged(f: Field, es: seq<nat>)
    requires f.Valid() && Distinct(es)
    requires forall i | 0 <= i < |es| :: es[i] < f.N() && Double(f.N(), es[i]) in es
    ensures Squares(f, Product(f, es)) == Product(f, es)
  {
    hide Product; hide Doubled; hide Double; hide Field.Valid; hide Pow2; hide Field.Sqr; hide Squares;
    OrderOdd(f);
    SquareProduct(f, es);
    DoublingPermutes(f.N(), es);
    ProductPermuted(f, Doubled(f.N(), es), es);
  }

  lemma {:induction false} ProductBinary(f: Field, es: seq<nat>)
    requires f.Valid() && Distinct(es)
    requires forall i | 0 <= i < |es| :: es[i] < f.N() && Double(f.N(), es[i]) in es
    ensures forall i | 0 <= i < |Product(f, es)| :: Product(f, es)[i] < 2
  {
    hide Product; hide Doubled; hide Double; hide Field.Valid; hide Pow2; hide Field.Sqr; hide Squares;
    var p := Product(f, es);
    SquaresUnchanged(f, es);
    forall i | 0 <= i < |p| ensures p[i] < 2 {
      assert Squares(f, p)[i] == p[i];
      SqrFixed(f, p[i]);
    }
  }
}
