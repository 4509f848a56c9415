/** The polynomial that locates a set of errors: it and the syndromes of the errors satisfy the key equation, it is the
    only polynomial of its degree that does, and no shorter one does.
 */
module Locators {
  import opened Bits
  import opened GaloisField
  import opened FieldLaws
  import opened Generator
  import opened GfSeries
  import opened Newton

  /** alpha^p x + alpha^2p x^2 + .. */
  ghost function Geometric(f: Field, n: nat, p: nat): (r: seq<nat>)
    requires f.Valid()
    ensures |r| == n && Elements(f, r) && forall j | 0 <= j < n :: r[j] == if j == 0 then 0 else A(f, j * p)
  {
    forall j: nat ensures A(f, Multiple(j, p)) <= f.N() { AlphaMod(f, Multiple(j, p)); }
    seq(n, j requires 0 <= j < n => if j == 0 then 0 else A(f, Multiple(j, p)))
  }

  ghost function Multiple(j: nat, p: nat): nat { j * p }

  /** 1 + S1 x + S2 x^2 + .. for errors at the positions ps. */
  ghost function PowerSums(f: Field, n: nat, ps: seq<nat>): (r: seq<nat>)
    requires f.Valid() && n > 0
    ensures |r| == n && Series(f, r)
  {
    FieldSize(f);
    if ps == [] then One(n)
    else Plus(f, PowerSums(f, n, ps[..|ps| - 1]), Geometric(f, n, ps[|ps| - 1]))
  }

  /** c + alpha^p x c. */
  ghost function TimesFactor(f: Field, c: seq<nat>, p: nat): (r: seq<nat>)
    requires Series(f, c)
    ensures |r| == |c| && Series(f, r)
  {
    AlphaMod(f, p); UpElements(f, c);
    Plus(f, c, Scale(f, A(f, p), Up(c)))
  }

  /** The product of 1 + alpha^p x over the positions, cut off after n coefficients. */
  ghost function Locator(f: Field, n: nat, ps: seq<nat>): (r: seq<nat>)
    requires f.Valid() && n > 0
    ensures |r| == n && Series(f, r)
  {
    FieldSize(f);
    if ps == [] then One(n) else TimesFactor(f, Locator(f, n, ps[..|ps| - 1]), ps[|ps| - 1])
  }

  lemma {:induction false} FactorAt(f: Field, c: seq<nat>, p: nat, j: nat)
    requires Series(f, c) && j < |c|
    ensures A(f, p) <= f.N()
    ensures TimesFactor(f, c, p)[j] == Xor(c[j], if j == 0 then 0 else f.Mul(A(f, p), c[j - 1]))
  {
    hide Xor; hide Field.Mul; hide Field.Valid; hide Pow2; hide A;
    AlphaMod(f, p); UpElements(f, c);
    MulZero(f, A(f, p), 0);
  }

  /** The constant coefficient is 1, and none is beyond the number of errors. */
  lemma {:induction false} LocatorShape(f: Field, n: nat, ps: seq<nat>)
    requires f.Valid() && n > 0
    ensures Locator(f, n, ps)[0] == 1 && Within(Locator(f, n, ps), |ps|)
    ensures |ps| < n ==> Locator(f, n, ps)[|ps|] != 0
  {
    hide Xor; hide Field.Mul; hide Field.Valid; hide Pow2; hide A; hide TimesFactor; hide Locator;
    if ps == [] {
      LocatorNone(f, n);
    } else {
      var k := |ps| - 1;
      var c, p := Locator(f, n, ps[..k]), ps[k];
      LocatorShape(f, n, ps[..k]);
      LocatorNext(f, n, ps);
      AlphaMod(f, p);
      forall j | 0 <= j < n && j > |ps| ensures Locator(f, n, ps)[j] == 0 {
        FactorAt(f, c, p, j);
        MulZero(f, A(f, p), 0); XorZero(0);
      }
      FactorAt(f, c, p, 0); XorZero(1);
      if |ps| < n {
        FactorAt(f, c, p, |ps|);
        MulZero(f, A(f, p), c[k]); XorZero(f.Mul(A(f, p), c[k]));
      }
    }
  }

  lemma LocatorNone(f: Field, n: nat)
    requires f.Valid() && n > 0
    ensures Locator(f, n, []) == One(n)
  {
  }

  lemma LocatorNext(f: Field, n: nat, ps: seq<nat>)
    requires f.Valid() && n > 0 && ps != []
    ensures Locator(f, n, ps) == TimesFactor(f, Locator(f, n, ps[..|ps| - 1]), ps[|ps| - 1])
  {
  }

  // ----- the key equation

  /** The powers of alpha^p, multiplied by 1 + alpha^p x, are alpha^p x alone. */
  lemma {:induction false} GeometricFactor(f: Field, n: nat, p: nat)
    requires f.Valid() && n > 0
    ensures A(f, p) <= f.N() && Series(f, Geometric(f, n, p)) && Elements(f, One(n)) && Elements(f, Up(One(n)))
    ensures TimesFactor(f, Geometric(f, n, p), p) == Scale(f, A(f, p), Up(One(n)))
  {
    hide Xor; hide Field.Mul; hide Field.Valid; hide Pow2; hide A; hide TimesFactor;
    AlphaMod(f, p); FieldSize(f); UpElements(f, One(n));
    var g := Geometric(f, n, p);
    var l, r := TimesFactor(f, g, p), Scale(f, A(f, p), Up(One(n)));
    forall j | 0 <= j < n ensures l[j] == r[j] {
      FactorAt(f, g, p, j);
      MulZero(f, A(f, p), 0); MulOne(f, A(f, p));
      XorZero(0); XorZero(A(f, p));
      if j == 1 {
        assert 1 * p == p;
      } else if j > 1 {
        AlphaMul(f, p, (j - 1) * p);
        assert p + (j - 1) * p == j * p;
        XorSelf(A(f, j * p));
      }
    }
  }

  /** A factor moves through a product. */
  lemma {:induction false} FactorTimes(f: Field, q: seq<nat>, p: nat, b: seq<nat>)
    requires Series(f, q) && Series(f, b) && |q| == |b|
    ensures Times(f, TimesFactor(f, q, p), b) == TimesFactor(f, Times(f, q, b), p) == Times(f, q, TimesFactor(f, b, p))
  {
    hide Field.Valid; hide Pow2; hide A; hide Times; hide Plus; hide Scale; hide Up;
    AlphaMod(f, p);
    UpElements(f, q); UpElements(f, b); UpElements(f, Times(f, q, b));
    PlusTimes(f, q, Scale(f, A(f, p), Up(q)), b);
    ScaleTimes(f, A(f, p), Up(q), b);
    UpTimes(f, q, b);
    TimesPlus(f, q, b, Scale(f, A(f, p), Up(b)));
    TimesScale(f, q, A(f, p), Up(b));
    TimesUp(f, q, b);
  }

  /** The locator times the power sums is the even part of the locator. */
  lemma {:induction false} KeyEquation(f: Field, n: nat, ps: seq<nat>)
    requires f.Valid() && n > 0
    ensures Times(f, Locator(f, n, ps), PowerSums(f, n, ps)) == Even(Locator(f, n, ps))
  {
    hide Field.Valid; hide Pow2; hide A;
    FieldSize(f);
    if ps == [] {
      TimesOne(f, One(n));
      assert Even(One(n)) == One(n);
    } else {
      KeyEquation(f, n, ps[..|ps| - 1]);
      KeyStep(f, n, Locator(f, n, ps[..|ps| - 1]), PowerSums(f, n, ps[..|ps| - 1]), ps[|ps| - 1]);
    }
  }

  lemma {:induction false} KeyStep(f: Field, n: nat, c: seq<nat>, T: seq<nat>, p: nat)
    requires Series(f, c) && Series(f, T) && |c| == |T| == n && Times(f, c, T) == Even(c)
    ensures Times(f, TimesFactor(f, c, p), Plus(f, T, Geometric(f, n, p))) == Even(TimesFactor(f, c, p))
  {
    hide Field.Valid; hide Pow2; hide A; hide Times; hide TimesFactor; hide Geometric; hide Plus; hide Scale; hide Up; hide Even; hide Odd;
    var g := Geometric(f, n, p);
    var d := TimesFactor(f, c, p);
    EvenOdd(f, c); AlphaMod(f, p); UpElements(f, c); UpElements(f, Odd(c)); UpElements(f, Even(c));
    TimesPlus(f, d, T, g);
    FactorTimes(f, c, p, T);
    FactorTimes(f, c, p, g);
    GeometricFactor(f, n, p);
    TimesScale(f, c, A(f, p), Up(One(n)));
    TimesUp(f, c, One(n));
    TimesOne(f, c);
    // d (T + g) = (Even c)(1 + X x) + X x c
    KeySum(f, c, p);
  }

  lemma {:induction false} KeySum(f: Field, c: seq<nat>, p: nat)
    requires Series(f, c)
    ensures A(f, p) <= f.N() && Series(f, Even(c)) && Elements(f, Up(c))
    ensures Plus(f, TimesFactor(f, Even(c), p), Scale(f, A(f, p), Up(c))) == Even(TimesFactor(f, c, p))
  {
    hide Field.Valid; hide Pow2; hide A; hide Scale; hide Up; hide Plus; hide Even; hide Odd;
    EvenOdd(f, c); AlphaMod(f, p); UpElements(f, c); UpElements(f, Odd(c)); UpElements(f, Even(c));
    var X, e := A(f, p), Even(c);
    PlusAssoc(f, e, Scale(f, X, Up(e)), Scale(f, X, Up(c)));
    ScalePlus(f, X, Up(e), Up(c));
    UpPlus(f, e, c);
    EvenPlus(f, c, Scale(f, X, Up(c)));
    EvenScale(f, X, Up(c));
    EvenUp(c);
  }

  lemma {:induction false} PlusAssoc(f: Field, a: seq<nat>, b: seq<nat>, c: seq<nat>)
    requires Elements(f, a) && Elements(f, b) && Elements(f, c) && |a| == |b| == |c|
    ensures Plus(f, Plus(f, a, b), c) == Plus(f, a, Plus(f, b, c))
  {
    hide Xor; hide Pow2;
    var l, r := Plus(f, Plus(f, a, b), c), Plus(f, a, Plus(f, b, c));
    forall i | 0 <= i < |a| ensures l[i] == r[i] { XorAssoc(a[i], b[i], c[i]); }
  }

  // ----- how long a locator must be

  /** A polynomial of degree a whose product with the power sums goes wrong first at the odd place m is too short: its
      degree and the number of errors reach m together.
   */
  lemma {:induction false} LengthBound(f: Field, ps: seq<nat>, T: seq<nat>, q: seq<nat>, a: nat, m: nat)
    requires Squared(f, T) && T == PowerSums(f, |T|, ps) && Elements(f, q) && |q| == |T| && Within(q, a)
    requires OddVanish(f, q, T, m) && m < |T| && m % 2 == 1 && Times(f, q, T)[m] != 0
    ensures a + |ps| >= m
  {
    hide Field.Valid; hide Pow2; hide A; hide Times; hide Plus; hide Squared; hide OddVanish; hide Locator; hide Xor; hide Field.Mul; hide PowerSums;
    SquaredSeries(f, T);
    var n := |T|;
    var L := Locator(f, n, ps);
    LocatorShape(f, n, ps);
    KeyEquation(f, n, ps);
    TimesTimes(f, L, q, T);
    PartsElements(f, L); PartsElements(f, q);
    if a + |ps| < m {
      EvenWithin(L, |ps|); EvenWithin(q, a);
      TimesWithin(f, q, a, Even(L), |ps|, m);
      TimesWithin(f, L, |ps|, Even(q), a, m);
      FirstWrong(f, T, q, m, L);
    }
  }

  lemma EvenWithin(s: seq<nat>, a: int)
    requires Within(s, a)
    ensures Within(Even(s), a)
  {
  }

  /** At the first wrong place the product with any polynomial of constant term 1 differs from that of the even part. */
  lemma {:induction false} FirstWrong(f: Field, T: seq<nat>, q: seq<nat>, m: nat, L: seq<nat>)
    requires Squared(f, T) && Elements(f, q) && |q| == |T| == |L| && OddVanish(f, q, T, m) && m < |T| && m % 2 == 1 && Times(f, q, T)[m] != 0
    requires Elements(f, L) && L[0] == 1
    ensures Elements(f, Even(q)) && Times(f, L, Times(f, q, T))[m] != Times(f, L, Even(q))[m]
  {
    hide Field.Valid; hide Pow2; hide Times; hide Plus; hide Squared; hide OddVanish; hide Xor; hide Field.Mul;
    SquaredSeries(f, T);
    PartsElements(f, q);
    var P := Times(f, q, T);
    var D := Plus(f, P, Even(q));
    forall j | 0 <= j < m ensures D[j] == 0 {
      EvenFollows(f, q, T, m, j);
      DiffAt(f, P, Even(q), j);
    }
    DiffAt(f, P, Even(q), m);
    TimesLow(f, L, D, m);
    MulOne(f, D[m]);
    TimesPlus(f, L, P, Even(q));
    DiffAt(f, Times(f, L, P), Times(f, L, Even(q)), m);
  }

  // ----- evaluation

  lemma {:induction false} EvalNone(f: Field, n: nat, x: nat)
    requires f.Valid() && x <= f.N()
    ensures Eval(f, None(n), x) == 0
  {
    if n > 0 {
      assert None(n)[1..] == None(n - 1);
      EvalNone(f, n - 1, x);
      MulZero(f, x, 0); XorZero(0);
    }
  }

  lemma {:induction false} EvalPlus(f: Field, a: seq<nat>, b: seq<nat>, x: nat)
    requires f.Valid() && x <= f.N() && Elements(f, a) && Elements(f, b) && |a| == |b|
    ensures Eval(f, Plus(f, a, b), x) == Xor(Eval(f, a, x), Eval(f, b, x))
  {
    if a == [] {
      XorZero(0);
    } else {
      assert Plus(f, a, b)[1..] == Plus(f, a[1..], b[1..]);
      hide Xor; hide Field.Mul; hide Field.Valid; hide Pow2;
      EvalPlus(f, a[1..], b[1..], x);
      var u, v := Eval(f, a[1..], x), Eval(f, b[1..], x);
      MulXor(f, x, u, v);
      XorSwap(a[0], b[0], f.Mul(x, u), f.Mul(x, v));
    }
  }

  lemma {:induction false} EvalScale(f: Field, c: nat, a: seq<nat>, x: nat)
    requires f.Valid() && x <= f.N() && c <= f.N() && Elements(f, a)
    ensures Eval(f, Scale(f, c, a), x) == f.Mul(c, Eval(f, a, x))
  {
    if a == [] {
      MulZero(f, c, 0);
    } else {
      assert Scale(f, c, a)[1..] == Scale(f, c, a[1..]);
      hide Xor; hide Field.Mul; hide Field.Valid; hide Pow2;
      EvalScale(f, c, a[1..], x);
      var u := Eval(f, a[1..], x);
      ElemXor(f, a[0], f.Mul(x, u));
      MulXor(f, c, a[0], f.Mul(x, u));
      MulAssoc(f, x, c, u); MulAssoc(f, c, x, u); MulComm(f, x, c);
    }
  }

  /** Zeros at the end do not matter. */
  lemma {:induction false} EvalPadded(f: Field, a: seq<nat>, k: nat, x: nat)
    requires f.Valid() && x <= f.N() && Elements(f, a) && k <= |a| && forall j | k <= j < |a| :: a[j] == 0
    ensures Elements(f, a[..k]) && Eval(f, a[..k], x) == Eval(f, a, x)
  {
    if k == 0 {
      assert a == None(|a|);
      EvalNone(f, |a|, x);
    } else {
      assert a[..k][1..] == a[1..][..k - 1];
      EvalPadded(f, a[1..], k - 1, x);
    }
  }

  lemma {:induction false} EvalUp(f: Field, s: seq<nat>, x: nat)
    requires Series(f, s) && x <= f.N() && s[|s| - 1] == 0
    ensures Elements(f, Up(s)) && Eval(f, Up(s), x) == f.Mul(x, Eval(f, s, x))
  {
    hide Xor; hide Field.Mul; hide Field.Valid; hide Pow2;
    UpElements(f, s);
    EvalPadded(f, s, |s| - 1, x);
    assert Up(s)[1..] == s[..|s| - 1];
    XorZero(f.Mul(x, Eval(f, s, x)));
  }

  /** Evaluation is multiplicative as long as nothing is cut off. */
  lemma {:induction false} EvalTimes(f: Field, p: seq<nat>, a: nat, b: seq<nat>, c: nat, x: nat)
    requires Series(f, b) && Elements(f, p) && Within(p, a) && Within(b, c) && a + c < |b| && x <= f.N()
    ensures Eval(f, Times(f, p, b), x) == f.Mul(Eval(f, p, x), Eval(f, b, x))
    decreases |p|
  {
    if p == [] {
      EvalNone(f, |b|, x);
      MulZero(f, 0, Eval(f, b, x));
    } else {
      EvalTimesStep(f, p, a, b, c, x);
    }
  }

  lemma {:induction false} EvalTimesStep(f: Field, p: seq<nat>, a: nat, b: seq<nat>, c: nat, x: nat)
    requires Series(f, b) && Elements(f, p) && Within(p, a) && Within(b, c) && a + c < |b| && x <= f.N() && p != []
    ensures Eval(f, Times(f, p, b), x) == f.Mul(Eval(f, p, x), Eval(f, b, x))
    decreases |p|, 0
  {
    hide Xor; hide Field.Mul; hide Field.Valid; hide Pow2; hide Plus; hide Scale; hide Up;
    var r := Times(f, p[1..], b);
    UpElements(f, r);
    if a == 0 {
      WithinNone(p);
      forall m | 0 <= m < |b| ensures r[m] == 0 { TimesZeros(f, p[1..], b, m); }
      TailWithin(p);
      EvalTimes(f, p[1..], 0, b, c, x);
    } else {
      WithinTail(p, a);
      TimesWithin(f, p[1..], a - 1, b, c, |b| - 1);
      EvalTimes(f, p[1..], a - 1, b, c, x);
    }
    EvalUp(f, r, x);
    EvalScale(f, p[0], b, x);
    EvalPlus(f, Scale(f, p[0], b), Up(r), x);
    var u, v := Eval(f, p[1..], x), Eval(f, b, x);
    MulAssoc(f, x, u, v);
    MulXor(f, v, p[0], f.Mul(x, u));
  }

  lemma TailWithin(p: seq<nat>)
    requires p != [] && forall j: nat :: Coef(p[1..], j) == 0
    ensures Within(p[1..], 0)
  {
    forall j | 0 <= j < |p[1..]| && j > 0 ensures p[1..][j] == 0 { assert Coef(p[1..], j) == 0; }
  }

  // ----- roots

  /** Distinct positions below the order of alpha. */
  ghost predicate Positions(f: Field, ps: seq<nat>) {
    (forall i | 0 <= i < |ps| :: ps[i] < f.N()) && forall i, j | 0 <= i < j < |ps| :: ps[i] != ps[j]
  }

  /** alpha^-p. */
  ghost function Inverse(f: Field, p: nat): (x: nat)
    requires f.Valid() && p < f.N()
    ensures 0 < x <= f.N()
  {
    AlphaMod(f, f.N() - p); A(f, f.N() - p)
  }

  lemma {:induction false} InverseIff(f: Field, p: nat, q: nat)
    requires f.Valid() && p < f.N() && q < f.N()
    ensures A(f, p) <= f.N() && (f.Mul(A(f, p), Inverse(f, q)) == 1 <==> p == q)
  {
    hide Field.Mul; hide Pow2; hide A; hide Field.Valid;
    AlphaMod(f, p);
    AlphaMul(f, p, f.N() - q);
    AlphaOneIff(f, p + (f.N() - q));
    SumIsOrder(p, q, f.N());
  }

  lemma {:induction false} AlphaOneIff(f: Field, i: nat)
    requires f.Valid()
    ensures f.N() > 0 && (A(f, i) == 1 <==> i % f.N() == 0)
  {
    hide Field.Mul; hide Pow2; hide A;
    AlphaMod(f, i); AlphaMod(f, 0); FieldSize(f);
  }

  lemma {:induction false} SumIsOrder(p: nat, q: nat, n: nat)
    requires p < n && q < n
    ensures (p + (n - q)) % n == 0 <==> p == q
  {
    if p < q {
      DivModUnique(p + (n - q), 0, p + (n - q), n);
    } else {
      DivModUnique(p + (n - q), 1, p - q, n);
    }
  }

  /** 1 + alpha^p x, at x. */
  ghost function Factor(f: Field, p: nat, x: nat): (v: nat)
    requires f.Valid() && x <= f.N()
    ensures v <= f.N()
  {
    AlphaMod(f, p); FieldSize(f);
    ElemXor(f, 1, f.Mul(A(f, p), x));
    Xor(1, f.Mul(A(f, p), x))
  }

  lemma {:induction false} FactorZeroIff(f: Field, p: nat, q: nat)
    requires f.Valid() && p < f.N() && q < f.N()
    ensures Factor(f, p, Inverse(f, q)) == 0 <==> p == q
  {
    hide Field.Mul; hide Field.Valid; hide Pow2; hide A; hide Xor;
    InverseIff(f, p, q);
    var v := f.Mul(A(f, p), Inverse(f, q));
    XorSelf(1);
    if Xor(1, v) == 0 { XorZeroEqual(1, v); }
  }

  lemma {:induction false} EvalFactor(f: Field, c: seq<nat>, p: nat, x: nat)
    requires Series(f, c) && c[|c| - 1] == 0 && x <= f.N()
    ensures Eval(f, TimesFactor(f, c, p), x) == f.Mul(Factor(f, p, x), Eval(f, c, x))
  {
    hide Field.Mul; hide Field.Valid; hide Pow2; hide A; hide Xor; hide Up; hide Scale; hide Plus;
    AlphaMod(f, p); UpElements(f, c); FieldSize(f);
    var X, v := A(f, p), Eval(f, c, x);
    EvalPlus(f, c, Scale(f, X, Up(c)), x);
    EvalScale(f, X, Up(c), x);
    EvalUp(f, c, x);
    MulAssoc(f, X, x, v);
    MulXor(f, v, 1, f.Mul(X, x));
    MulOne(f, v);
  }

  /** The locator vanishes at the inverses of the error positions and at no other. */
  lemma {:induction false} LocatorRootIff(f: Field, n: nat, ps: seq<nat>, q: nat)
    requires f.Valid() && |ps| < n && Positions(f, ps) && q < f.N()
    ensures Eval(f, Locator(f, n, ps), Inverse(f, q)) == 0 <==> q in ps
  {
    hide Field.Mul; hide Field.Valid; hide Pow2; hide A; hide Xor; hide Eval; hide Factor; hide Inverse; hide Locator; hide TimesFactor;
    var x := Inverse(f, q);
    if ps == [] {
      LocatorNone(f, n);
      EvalOne(f, n, x);
    } else {
      var k := |ps| - 1;
      LocatorNext(f, n, ps);
      LocatorShape(f, n, ps[..k]);
      EvalFactor(f, Locator(f, n, ps[..k]), ps[k], x);
      LocatorRootIff(f, n, ps[..k], q);
      FactorZeroIff(f, ps[k], q);
      MulZero(f, Factor(f, ps[k], x), Eval(f, Locator(f, n, ps[..k]), x));
      assert ps == ps[..k] + [ps[k]];
    }
  }

  lemma {:induction false} EvalOne(f: Field, n: nat, x: nat)
    requires f.Valid() && n > 0 && x <= f.N()
    ensures Elements(f, One(n)) && Eval(f, One(n), x) == 1
  {
    hide Pow2;
    FieldSize(f);
    assert One(n)[1..] == None(n - 1);
    EvalNone(f, n - 1, x);
    MulZero(f, x, 0); XorZero(1);
  }

  /** At its roots the even part of the locator does not vanish. */
  lemma {:induction false} EvenNonzero(f: Field, n: nat, ps: seq<nat>, q: nat)
    requires f.Valid() && |ps| < n && Positions(f, ps) && q in ps
    ensures Elements(f, Even(Locator(f, n, ps))) && Eval(f, Even(Locator(f, n, ps)), Inverse(f, q)) != 0
  {
    hide Field.Mul; hide Field.Valid; hide Pow2; hide A; hide Xor; hide Eval; hide Factor; hide Inverse; hide Locator; hide TimesFactor;
    hide Even; hide Odd; hide Plus;
    var k := |ps| - 1;
    var x, c, d := Inverse(f, q), Locator(f, n, ps[..k]), Locator(f, n, ps);
    assert ps == ps[..k] + [ps[k]];
    LocatorNext(f, n, ps);
    LocatorShape(f, n, ps[..k]);
    EvenOdd(f, c); EvenOdd(f, d);
    LocatorRootIff(f, n, ps, q);
    LocatorRootIff(f, n, ps[..k], q);
    var u, w := Eval(f, Even(c), x), Eval(f, Odd(c), x);
    EvalPlus(f, Even(c), Odd(c), x);
    SplitFactor(f, c, ps[k], x);
    if q == ps[k] {
      InverseIff(f, q, q);
      MulOne(f, w);
      // the even part is u + w, the value of c
    } else {
      EvenNonzero(f, n, ps[..k], q);
      if Xor(u, w) == 0 { XorZeroEqual(u, w); }
      FactorTimesValue(f, ps[k], x, u);
      FactorZeroIff(f, ps[k], q);
      MulZero(f, Factor(f, ps[k], x), u);
    }
  }

  /** The even part of c (1 + X x) is the even part of c and X x times its odd part. */
  lemma {:induction false} SplitFactor(f: Field, c: seq<nat>, p: nat, x: nat)
    requires Series(f, c) && c[|c| - 1] == 0 && x <= f.N()
    ensures Elements(f, Even(c)) && Elements(f, Odd(c)) && Elements(f, Even(TimesFactor(f, c, p))) && A(f, p) <= f.N()
    ensures Eval(f, Even(TimesFactor(f, c, p)), x)
         == Xor(Eval(f, Even(c), x), f.Mul(f.Mul(A(f, p), x), Eval(f, Odd(c), x)))
  {
    hide Field.Mul; hide Field.Valid; hide Pow2; hide A; hide Xor; hide Eval; hide Plus; hide Scale; hide Up;
    AlphaMod(f, p); UpElements(f, c);
    var X := A(f, p);
    EvenOdd(f, c);
    EvenPlus(f, c, Scale(f, X, Up(c)));
    EvenScale(f, X, Up(c));
    EvenUp(c);
    UpElements(f, Odd(c));
    EvalPlus(f, Even(c), Scale(f, X, Up(Odd(c))), x);
    EvalScale(f, X, Up(Odd(c)), x);
    EvalUp(f, Odd(c), x);
    MulAssoc(f, X, x, Eval(f, Odd(c), x));
  }

  lemma {:induction false} FactorTimesValue(f: Field, p: nat, x: nat, u: nat)
    requires f.Valid() && x <= f.N() && u <= f.N()
    ensures A(f, p) <= f.N() && f.Mul(Factor(f, p, x), u) == Xor(u, f.Mul(f.Mul(A(f, p), x), u))
  {
    hide Field.Mul; hide Field.Valid; hide Pow2; hide A; hide Xor;
    AlphaMod(f, p); FieldSize(f);
    MulXor(f, u, 1, f.Mul(A(f, p), x));
    MulOne(f, u);
  }

  // ----- uniqueness

  /** p(x) = p(r) + (x + r) q(x). */
  lemma {:induction false} Divide(f: Field, p: seq<nat>, r: nat) returns (q: seq<nat>)
    requires f.Valid() && Elements(f, p) && p != [] && r <= f.N()
    ensures |q| == |p| - 1 && Elements(f, q) && TimesRoot(f, q, r, Eval(f, p, r)) == p
  {
    hide Field.Mul; hide Field.Valid; hide Pow2; hide Xor; hide Eval; hide TimesRoot;
    if |p| == 1 {
      q := [];
      DivideConstant(f, p, r);
    } else {
      var q1 := Divide(f, p[1..], r);
      q := [Eval(f, p[1..], r)] + q1;
      DivideStep(f, p, r, q1);
    }
  }

  lemma {:induction false} DivideConstant(f: Field, p: seq<nat>, r: nat)
    requires f.Valid() && Elements(f, p) && |p| == 1 && r <= f.N()
    ensures Eval(f, p, r) <= f.N() && TimesRoot(f, [], r, Eval(f, p, r)) == p
  {
    assert p[1..] == [];
    MulZero(f, r, 0); XorZero(p[0]);
  }

  lemma {:induction false} DivideStep(f: Field, p: seq<nat>, r: nat, q1: seq<nat>)
    requires f.Valid() && Elements(f, p) && |p| > 1 && r <= f.N() && Elements(f, q1)
    requires Elements(f, p[1..]) && TimesRoot(f, q1, r, Eval(f, p[1..], r)) == p[1..]
    ensures TimesRoot(f, [Eval(f, p[1..], r)] + q1, r, Eval(f, p, r)) == p
  {
    hide Field.Mul; hide Field.Valid; hide Pow2; hide Xor;
    var v := Eval(f, p[1..], r);
    var q := [v] + q1;
    assert q[1..] == q1;
    MulComm(f, v, r);
    var w := f.Mul(r, v);
    XorComm(p[0], w); XorCancel(p[0], w);
    assert [p[0]] + p[1..] == p;
  }

  /** A polynomial with as many distinct roots as coefficients is zero. */
  lemma {:induction false} TooManyRoots(f: Field, p: seq<nat>, rs: seq<nat>)
    requires f.Valid() && Elements(f, p) && |rs| == |p| && Elements(f, rs)
    requires forall i, j | 0 <= i < j < |rs| :: rs[i] != rs[j]
    requires forall i | 0 <= i < |rs| :: Eval(f, p, rs[i]) == 0
    ensures p == None(|p|)
    decreases |rs|
  {
    hide Field.Mul; hide Field.Valid; hide Pow2; hide Xor; hide Eval; hide TimesRoot;
    if p != [] {
      var r := rs[0];
      var q := Divide(f, p, r);
      forall i | 0 <= i < |rs[1..]| ensures Eval(f, q, rs[1..][i]) == 0 {
        var x := rs[i + 1];
        assert x != r && Eval(f, p, x) == 0;
        EvalTimesRoot(f, q, r, 0, x);
        XorZero(f.Mul(Xor(x, r), Eval(f, q, x)));
        MulZero(f, Xor(x, r), Eval(f, q, x));
        if Xor(x, r) == 0 { XorZeroEqual(x, r); }
      }
      TooManyRoots(f, q, rs[1..]);
      RootOfNone(f, |q|, r);
    }
  }

  lemma {:induction false} RootOfNone(f: Field, n: nat, r: nat)
    requires f.Valid() && r <= f.N()
    ensures TimesRoot(f, None(n), r, 0) == None(n + 1)
  {
    if n == 0 {
      assert None(0) == [] && None(1) == [0];
    } else {
      assert None(n)[1..] == None(n - 1);
      RootOfNone(f, n - 1, r);
      MulZero(f, 0, r); XorZero(0);
      assert [0] + None(n) == None(n + 1);
    }
  }

  /** Every error position is a root of a polynomial that satisfies the key equation and is no longer than the locator. */
  lemma {:induction false} SharesRoots(f: Field, T: seq<nat>, ps: seq<nat>, q: seq<nat>, p: nat)
    requires Squared(f, T) && T == PowerSums(f, |T|, ps) && Positions(f, ps) && 2 * |ps| < |T| && p in ps
    requires Elements(f, q) && |q| == |T| && Within(q, |ps|) && OddVanish(f, q, T, |T|)
    ensures f.Valid() && Eval(f, q, Inverse(f, p)) == 0
  {
    hide Field.Mul; hide Field.Valid; hide Pow2; hide A; hide Xor; hide Eval; hide Inverse; hide Locator; hide Times; hide Even;
    hide Squared; hide OddVanish; hide PowerSums; hide Within;
    SquaredSeries(f, T);
    var n, v := |T|, |ps|;
    var L, x := Locator(f, n, ps), Inverse(f, p);
    PartsElements(f, L); PartsElements(f, q);
    WholeEven(f, T, q);
    KeyEquation(f, n, ps);
    TimesTimes(f, L, q, T);
    LocatorShape(f, n, ps);
    EvenWithin(L, v); EvenWithin(q, v);
    EvalTimes(f, q, v, Even(L), v, x);
    EvalTimes(f, L, v, Even(q), v, x);
    LocatorRootIff(f, n, ps, p);
    EvenNonzero(f, n, ps, p);
    MulZero(f, 0, Eval(f, Even(q), x));
    MulZero(f, Eval(f, q, x), Eval(f, Even(L), x));
  }

  lemma {:induction false} WholeEven(f: Field, T: seq<nat>, q: seq<nat>)
    requires Squared(f, T) && Elements(f, q) && |q| == |T| && OddVanish(f, q, T, |T|)
    ensures Series(f, T) && Times(f, q, T) == Even(q)
  {
    hide Field.Valid; hide Pow2; hide Times; hide Squared; hide OddVanish;
    SquaredSeries(f, T);
    forall m | 0 <= m < |T| ensures Times(f, q, T)[m] == Even(q)[m] { EvenFollows(f, q, T, |T|, m); }
  }

  /** The locator is the only polynomial with constant term 1 and at most its degree that vanishes at its roots. */
  lemma {:induction false} LocatorByRoots(f: Field, n: nat, ps: seq<nat>, q: seq<nat>)
    requires f.Valid() && Positions(f, ps) && |ps| < n == |q| && Elements(f, q) && q[0] == 1 && Within(q, |ps|)
    requires forall i | 0 <= i < |ps| :: Eval(f, q, Inverse(f, ps[i])) == 0
    ensures q == Locator(f, n, ps)
  {
    hide Field.Mul; hide Field.Valid; hide Pow2; hide A; hide Xor; hide Eval; hide Inverse; hide Locator; hide Plus;
    var v := |ps|;
    var L := Locator(f, n, ps);
    LocatorShape(f, n, ps);
    var D := Plus(f, q, L);
    forall j | 0 <= j < n && (j == 0 || j > v) ensures D[j] == 0 { DiffAt(f, q, L, j); }
    var rs := seq(v + 1, i requires 0 <= i <= v => if i == 0 then 0 else Inverse(f, ps[i - 1]));
    forall i | 0 <= i < v + 1 ensures rs[i] <= f.N() && Eval(f, D[..v + 1], rs[i]) == 0 {
      EvalPadded(f, D, v + 1, rs[i]);
      EvalPlus(f, q, L, rs[i]);
      if i == 0 {
        EvalAtZero(f, D);
      } else {
        LocatorRootIff(f, n, ps, ps[i - 1]);
        XorZero(0);
      }
    }
    forall i, j | 0 <= i < j < |rs| ensures rs[i] != rs[j] {
      if i > 0 { InverseIff(f, ps[i - 1], ps[i - 1]); InverseIff(f, ps[i - 1], ps[j - 1]); }
    }
    TooManyRoots(f, D[..v + 1], rs);
    forall j | 0 <= j < n ensures q[j] == L[j] {
      if j <= v { assert D[j] == D[..v + 1][j]; }
      DiffAt(f, q, L, j);
    }
  }

  /** The locator is the only polynomial with constant term 1 and at most its degree that satisfies the key equation. */
  lemma {:induction false} LocatorUnique(f: Field, T: seq<nat>, ps: seq<nat>, q: seq<nat>)
    requires Squared(f, T) && T == PowerSums(f, |T|, ps) && Positions(f, ps) && 2 * |ps| < |T|
    requires Elements(f, q) && |q| == |T| && q[0] == 1 && Within(q, |ps|) && OddVanish(f, q, T, |T|)
    ensures f.Valid() && q == Locator(f, |T|, ps)
  {
    hide Field.Valid; hide Pow2; hide Eval; hide Inverse; hide Locator; hide Squared; hide OddVanish; hide PowerSums; hide Within;
    SquaredSeries(f, T);
    forall i | 0 <= i < |ps| ensures Eval(f, q, Inverse(f, ps[i])) == 0 { SharesRoots(f, T, ps, q, ps[i]); }
    LocatorByRoots(f, |T|, ps, q);
  }

  /** The converse: a polynomial that satisfies the key equation and has as many roots as its degree tells what the
      syndromes are.
   */
  lemma {:induction false} RootsTellSums(f: Field, T: seq<nat>, ps: seq<nat>, q: seq<nat>)
    requires Squared(f, T) && Positions(f, ps) && |ps| < |T|
    requires Elements(f, q) && |q| == |T| && q[0] == 1 && Within(q, |ps|) && OddVanish(f, q, T, |T|)
    requires f.Valid() && forall i | 0 <= i < |ps| :: Eval(f, q, Inverse(f, ps[i])) == 0
    ensures T == PowerSums(f, |T|, ps)
  {
    hide Field.Valid; hide Pow2; hide Eval; hide Inverse; hide Locator; hide Squared; hide OddVanish; hide PowerSums; hide Within;
    hide Times; hide Even; hide Plus; hide Xor;
    var n := |T|;
    SquaredSeries(f, T);
    LocatorByRoots(f, n, ps, q);
    WholeEven(f, T, q);
    var P := PowerSums(f, n, ps);
    KeyEquation(f, n, ps);
    PartsElements(f, q);
    TimesPlus(f, q, T, P);
    PlusNone(f, Even(q));
    forall m | 0 <= m < n ensures T[m] == P[m] { NoneFirst(f, q, T, P, m); }
  }

  lemma {:induction false} NoneFirst(f: Field, q: seq<nat>, a: seq<nat>, b: seq<nat>, m: nat)
    requires Series(f, a) && Series(f, b) && |a| == |b| == |q| && Elements(f, q) && q[0] == 1 && m < |a|
    requires Times(f, q, Plus(f, a, b)) == None(|a|)
    ensures a[m] == b[m]
    decreases m
  {
    hide Field.Valid; hide Pow2; hide Times; hide Plus; hide Xor; hide Field.Mul;
    var D := Plus(f, a, b);
    forall j | 0 <= j < m ensures D[j] == 0 {
      NoneFirst(f, q, a, b, j);
      DiffAt(f, a, b, j);
    }
    TimesLow(f, q, D, m);
    MulOne(f, D[m]);
    DiffAt(f, a, b, m);
  }

  lemma {:induction false} EvalAtZero(f: Field, c: seq<nat>)
    requires Series(f, c)
    ensures Eval(f, c, 0) == c[0]
  {
    MulZero(f, 0, Eval(f, c[1..], 0));
    XorZero(c[0]);
  }

  // ----- power sums

  lemma PowerSumsNone(f: Field, n: nat)
    requires f.Valid() && n > 0
    ensures PowerSums(f, n, []) == One(n)
  {
  }

  lemma {:induction false} PowerSumsNext(f: Field, n: nat, ps: seq<nat>, m: nat)
    requires f.Valid() && n > 0 && ps != [] && m < n
    ensures PowerSums(f, n, ps)[m] == Xor(PowerSums(f, n, ps[..|ps| - 1])[m], if m == 0 then 0 else A(f, m * ps[|ps| - 1]))
  {
    hide Field.Valid; hide Pow2; hide A; hide Xor;
  }

  lemma {:induction false} PowerSumsFirst(f: Field, n: nat, ps: seq<nat>)
    requires f.Valid() && n > 0
    ensures PowerSums(f, n, ps)[0] == 1
  {
    hide Field.Valid; hide Pow2; hide A; hide Xor; hide PowerSums;
    if ps == [] {
      PowerSumsNone(f, n);
    } else {
      PowerSumsFirst(f, n, ps[..|ps| - 1]);
      PowerSumsNext(f, n, ps, 0);
      XorZero(1);
    }
  }

  /** Each power sum squared is the one of twice its index. */
  lemma {:induction false} PowerSumsSquare(f: Field, n: nat, ps: seq<nat>, j: nat)
    requires f.Valid() && n > 0 && 2 * j < n
    ensures PowerSums(f, n, ps)[2 * j] == f.Mul(PowerSums(f, n, ps)[j], PowerSums(f, n, ps)[j])
  {
    hide Field.Valid; hide Pow2; hide A; hide Xor; hide PowerSums; hide Field.Mul; hide Field.Sqr;
    FieldSize(f);
    if j == 0 {
      PowerSumsFirst(f, n, ps);
      MulOne(f, 1);
    } else if ps == [] {
      PowerSumsNone(f, n);
      MulZero(f, 0, 0);
    } else {
      var k := |ps| - 1;
      var qs, p := ps[..k], ps[k];
      PowerSumsSquare(f, n, qs, j);
      PowerSumsNext(f, n, ps, j); PowerSumsNext(f, n, ps, 2 * j);
      var u, v := PowerSums(f, n, qs)[j], A(f, j * p);
      AlphaMul(f, j * p, j * p);
      assert j * p + j * p == 2 * j * p;
      SqrXor(f, u, v);
      SqrIsMul(f, u); SqrIsMul(f, v); SqrIsMul(f, Xor(u, v));
    }
  }

  lemma {:induction false} PowerSumsSquared(f: Field, n: nat, ps: seq<nat>)
    requires f.Valid() && n > 0
    ensures Squared(f, PowerSums(f, n, ps))
  {
    hide Field.Valid; hide Pow2; hide PowerSums; hide Field.Mul;
    PowerSumsFirst(f, n, ps);
    forall j: nat | 2 * j < n ensures PowerSums(f, n, ps)[2 * j] == f.Mul(PowerSums(f, n, ps)[j], PowerSums(f, n, ps)[j]) {
      PowerSumsSquare(f, n, ps, j);
    }
  }
}
