/** The syndromes of any set of wrong bits. */
module BchErrors {
  import opened Bits
  import opened BinaryPoly
  import opened GaloisField
  import opened FieldLaws
  import opened Generator
  import opened BinaryEval
  import opened BchGenerator
  import opened BchSyndromes
  import opened GfSeries
  import opened Newton
  import opened Locators
  import opened BchLocator

  /** The sum of x^p over the positions. */
  ghost function ErrorPoly(ps: seq<nat>): nat {
    if ps == [] then 0 else Xor(ErrorPoly(ps[..|ps| - 1]), Pow2(ps[|ps| - 1]))
  }

  /** Its values at the odd powers of alpha are the odd power sums. */
  lemma {:induction false} EvalErrors(f: Field, n: nat, ps: seq<nat>, j: nat)
    requires f.Valid() && 2 * j + 1 < n
    ensures EvalAt(f, ErrorPoly(ps), j) == PowerSums(f, n, ps)[2 * j + 1]
  {
    hide Field.Valid; hide Pow2; hide A; hide Xor; hide EvalAt; hide PowerSums;
    if ps == [] {
      PowerSumsNone(f, n);
      EvalAtNone(f, j);
    } else {
      var k := |ps| - 1;
      EvalErrors(f, n, ps[..k], j);
      PowerSumsNext(f, n, ps, 2 * j + 1);
      EvalAddBit(f, ErrorPoly(ps[..k]), ps[k], j);
      AlphaMod(f, (2 * j + 1) * ps[k]);
    }
  }

  lemma EvalAtNone(f: Field, j: nat)
    requires f.Valid()
    ensures EvalAt(f, 0, j) == 0
  {
    AlphaMod(f, 2 * j + 1);
    EvalZero(f, A(f, 2 * j + 1));
  }

  /** The remainder by the generator has the same values. */
  lemma {:induction false} EvalRemainder(f: Field, t: nat, g: nat, d: nat, v: nat, j: nat)
    requires f.Valid() && IsGenerator(f, t, g, d) && j < t
    ensures EvalAt(f, Reduce(g, d, v), j) == EvalAt(f, v, j)
  {
    hide A; hide EvalBits; hide Reduce; hide Pow2; hide Field.Valid; hide IsGenerator;
    GeneratorRoot(f, t, g, d, j);
    AlphaMod(f, 2 * j + 1);
    EvalReduce(f, g, d, v, A(f, 2 * j + 1));
  }

  lemma GeneratorRoot(f: Field, t: nat, g: nat, d: nat, j: nat)
    requires IsGenerator(f, t, g, d) && j < t
    ensures f.Valid() && A(f, 2 * j + 1) <= f.N() && EvalBits(f, g, A(f, 2 * j + 1)) == 0
  {
    hide Field.Valid; hide A; hide EvalBits;
  }

  /** Odd syndromes from the remainder and even ones as squares make up the power sums. */
  lemma {:induction false} SyndromesOfErrors(f: Field, t: nat, g: nat, d: nat, syn: seq<nat>, ps: seq<nat>)
    requires IsGenerator(f, t, g, d) && f.Valid() && |syn| == 2 * t && Elements(f, syn) && Positions(f, ps) && |ps| <= t
    requires forall j: nat | j < t :: syn[2 * j] == EvalAt(f, Reduce(g, d, ErrorPoly(ps)), j)
    requires forall j: nat | j < t :: SquareAt(f, syn, j)
    ensures SyndromesOf(f, syn, ps)
  {
    hide A; hide EvalAt; hide Reduce; hide Pow2; hide Field.Valid; hide SquareAt; hide PowerSums; hide ErrorPoly; hide IsGenerator;
    var n := 2 * t + 1;
    var T, P := SynSeries(f, syn), PowerSums(f, n, ps);
    forall j: nat | j < t ensures syn[2 * j] == P[2 * j + 1] {
      EvalRemainder(f, t, g, d, ErrorPoly(ps), j);
      EvalErrors(f, n, ps, j);
    }
    PowerSumsFirst(f, n, ps);
    forall m | 0 <= m < n ensures T[m] == P[m] {
      if m > 0 { SyndromeAt(f, t, syn, ps, m); }
    }
  }

  lemma {:induction false} SyndromeAt(f: Field, t: nat, syn: seq<nat>, ps: seq<nat>, m: nat)
    requires f.Valid() && |syn| == 2 * t && Elements(f, syn) && 0 < m <= 2 * t
    requires forall j: nat | j < t :: syn[2 * j] == PowerSums(f, 2 * t + 1, ps)[2 * j + 1]
    requires forall j: nat | j < t :: SquareAt(f, syn, j)
    ensures syn[m - 1] == PowerSums(f, 2 * t + 1, ps)[m]
    decreases m
  {
    hide Field.Valid; hide Pow2; hide PowerSums; hide Field.Mul; hide Field.Sqr;
    var h := (m - 1) / 2;
    if m % 2 == 1 {
      assert m == 2 * h + 1;
      assert syn[2 * h] == PowerSums(f, 2 * t + 1, ps)[2 * h + 1];
    } else {
      assert m == 2 * (h + 1) && 2 * h + 1 == m - 1;
      SyndromeAt(f, t, syn, ps, h + 1);
      assert SquareAt(f, syn, h);
      SqrIsMul(f, syn[h]);
      PowerSumsSquare(f, 2 * t + 1, ps, h + 1);
    }
  }

  /** Up to t wrong bits never leave all syndromes zero: the code words are further apart. */
  lemma {:induction false} SomeSyndrome(f: Field, syn: seq<nat>, ps: seq<nat>)
    requires SyndromesOf(f, syn, ps) && forall i | 0 <= i < |syn| :: syn[i] == 0
    ensures ps == []
  {
    hide Field.Valid; hide Pow2; hide PowerSums; hide Locator; hide Times; hide Squared;
    var T, n := SynSeries(f, syn), |syn| + 1;
    FieldSize(f);
    assert T == One(n);
    PowerSumsSquared(f, n, ps);
    TimesOne(f, T);
    LocatorUnique(f, T, ps, T);
    LocatorShape(f, n, ps);
  }

  /** So their sum is no multiple of the generator. */
  lemma {:induction false} RemainderNonzero(f: Field, t: nat, g: nat, d: nat, ps: seq<nat>)
    requires IsGenerator(f, t, g, d) && f.Valid() && Positions(f, ps) && |ps| <= t && Reduce(g, d, ErrorPoly(ps)) == 0
    ensures ps == []
  {
    hide A; hide EvalAt; hide Reduce; hide Pow2; hide Field.Valid; hide SquareAt; hide PowerSums; hide ErrorPoly; hide IsGenerator;
    var syn := None(2 * t);
    ZeroSquares(f, t);
    forall j: nat | j < t ensures syn[2 * j] == EvalAt(f, Reduce(g, d, ErrorPoly(ps)), j) { EvalAtNone(f, j); }
    SyndromesOfErrors(f, t, g, d, syn, ps);
    SomeSyndrome(f, syn, ps);
  }

  lemma ZeroSquares(f: Field, t: nat)
    requires f.Valid()
    ensures Elements(f, None(2 * t)) && forall j: nat | j < t :: SquareAt(f, None(2 * t), j)
  {
  }

  // ----- a remainder is told by its syndromes

  /** A binary polynomial at a square is the square of its value. */
  lemma {:induction false} EvalSquare(f: Field, v: nat, x: nat)
    requires f.Valid() && x <= f.N()
    ensures EvalBits(f, v, f.Sqr(x)) == f.Sqr(EvalBits(f, v, x))
    decreases v
  {
    hide Field.Valid; hide Field.Mul; hide Field.Sqr; hide Xor; hide Pow2; hide EvalBits;
    if v == 0 {
      EvalZero(f, x); EvalZero(f, f.Sqr(x));
      SqrNone(f);
    } else {
      var h, i := v / 2, v % 2;
      EvalSquare(f, h, x);
      EvalCons(f, h, i, x); EvalCons(f, h, i, f.Sqr(x));
      var u := EvalBits(f, h, x);
      FieldSize(f);
      SqrXor(f, i, f.Mul(x, u));
      SqrProduct(f, x, u);
      SqrIsMul(f, 1); MulOne(f, 1); SqrNone(f);
    }
  }

  lemma SqrNone(f: Field)
    requires f.Valid()
    ensures f.Sqr(0) == 0
  {
  }

  lemma {:induction false} SqrProduct(f: Field, x: nat, y: nat)
    requires f.Valid() && x <= f.N() && y <= f.N()
    ensures f.Sqr(f.Mul(x, y)) == f.Mul(f.Sqr(x), f.Sqr(y))
  {
    hide Field.Valid; hide Field.Mul; hide Field.Sqr; hide Pow2;
    var p := f.Mul(x, y);
    SqrIsMul(f, x); SqrIsMul(f, y); SqrIsMul(f, p);
    MulAssoc(f, x, y, p); MulComm(f, y, p); MulAssoc(f, x, y, y);
    MulAssoc(f, x, x, f.Mul(y, y));
  }

  /** A root is a root with all its conjugates. */
  lemma {:induction false} ConjugateRoot(f: Field, v: nat, r: nat, j: nat)
    requires f.Valid() && r < f.N() && A(f, r) <= f.N() && EvalBits(f, v, A(f, r)) == 0
    ensures var e := DoubleN(f.N(), j, r); e < f.N() && A(f, e) <= f.N() && EvalBits(f, v, A(f, e)) == 0
  {
    hide Field.Valid; hide Field.Sqr; hide Pow2; hide EvalBits; hide A;
    if j > 0 {
      ConjugateRoot(f, v, r, j - 1);
      var e := DoubleN(f.N(), j - 1, r);
      SqrAlpha(f, e);
      EvalSquare(f, v, A(f, e));
      SqrNone(f);
      if 2 * e >= f.N() {
        AlphaPeriod(f, 2 * e - f.N(), 1);
        assert 2 * e - f.N() + 1 * f.N() == 2 * e;
      }
      AlphaMod(f, Double(f.N(), e));
    }
  }

  lemma {:induction false} CosetRoot(f: Field, v: nat, r: nat, j: nat, e: nat)
    requires f.Valid() && r < f.N() && A(f, r) <= f.N() && EvalBits(f, v, A(f, r)) == 0 && e in Coset(f.N(), r, j)
    ensures A(f, e) <= f.N() && EvalBits(f, v, A(f, e)) == 0
  {
    hide Field.Valid; hide Pow2; hide EvalBits; hide A;
    ConjugateRoot(f, v, r, j - 1);
    if e in Coset(f.N(), r, j - 1) { CosetRoot(f, v, r, j - 1, e); }
  }

  lemma {:induction false} CosetsRoot(f: Field, v: nat, t: nat, e: nat)
    requires f.Valid() && 2 * t <= f.N() && e in Cosets(f.N(), f.m, t)
    requires forall j: nat | j < t :: EvalAt(f, v, j) == 0
    ensures A(f, e) <= f.N() && EvalBits(f, v, A(f, e)) == 0
  {
    hide Field.Valid; hide Pow2; hide EvalBits; hide A; hide Coset;
    if e in Cosets(f.N(), f.m, t - 1) {
      CosetsRoot(f, v, t - 1, e);
    } else {
      assert EvalAt(f, v, t - 1) == 0;
      AlphaMod(f, 2 * t - 1);
      CosetRoot(f, v, 2 * t - 1, f.m, e);
    }
  }

  /** The d lowest bits. */
  ghost function BitList(v: nat, d: nat): (s: seq<nat>)
    ensures |s| == d && forall i | 0 <= i < d :: s[i] < 2
  {
    if d == 0 then [] else [v % 2] + BitList(v / 2, d - 1)
  }

  lemma {:induction false} BitListSum(v: nat, d: nat)
    requires v < Pow2(d)
    ensures ToBits(BitList(v, d)) == v
  {
    if d > 0 { BitListSum(v / 2, d - 1); }
  }

  lemma {:induction false} NoBits(n: nat)
    ensures ToBits(None(n)) == 0
  {
    if n > 0 {
      assert None(n)[1..] == None(n - 1);
      NoBits(n - 1);
    }
  }

  /** A polynomial below the degree of the generator that vanishes at the odd powers of alpha is zero. */
  lemma {:induction false} VanishesIsZero(f: Field, t: nat, g: nat, d: nat, v: nat)
    requires IsGenerator(f, t, g, d) && f.Valid() && 2 * t <= f.N() && v < Pow2(d) && forall j: nat | j < t :: EvalAt(f, v, j) == 0
    ensures v == 0
  {
    hide Field.Valid; hide Pow2; hide EvalBits; hide A; hide EvalAt; hide Eval; hide Cosets; hide HasDegree; hide ToBits;
    var es: seq<nat> :| |es| == d && CosetList(f, t, es);
    var p := BitList(v, d);
    BitListSum(v, d);
    FieldSize(f);
    forall i: nat ensures A(f, i) <= f.N() { AlphaMod(f, i); }
    var rs := seq(d, i requires 0 <= i < d => A(f, es[i]));
    forall i | 0 <= i < d ensures rs[i] <= f.N() && Eval(f, p, rs[i]) == 0 {
      CosetsRoot(f, v, t, es[i]);
      EvalToBits(f, p, rs[i]);
    }
    forall i, j | 0 <= i < j < d ensures rs[i] != rs[j] { DistinctPowers(f, es, i, j); }
    TooManyRoots(f, p, rs);
    NoBits(d);
  }

  lemma {:induction false} DistinctPowers(f: Field, es: seq<nat>, i: nat, j: nat)
    requires f.Valid() && Distinct(es) && i < j < |es| && es[i] < f.N() && es[j] < f.N()
    ensures A(f, es[i]) != A(f, es[j])
  {
    hide Field.Valid; hide Pow2; hide A;
    AlphaMod(f, es[i]); AlphaMod(f, es[j]);
    ModSmall(es[i], f.N()); ModSmall(es[j], f.N());
  }

  /** Positions whose power sums are the syndromes of a remainder explain it. */
  lemma {:induction false} SyndromesTell(f: Field, t: nat, g: nat, d: nat, R: nat, syn: seq<nat>, ps: seq<nat>)
    requires IsGenerator(f, t, g, d) && f.Valid() && 2 * t <= f.N() && R < Pow2(d) && |syn| == 2 * t && SyndromesOf(f, syn, ps)
    requires forall j: nat | j < t :: syn[2 * j] == EvalAt(f, R, j)
    ensures R == Reduce(g, d, ErrorPoly(ps))
  {
    hide A; hide EvalAt; hide Reduce; hide Pow2; hide Field.Valid; hide PowerSums; hide ErrorPoly; hide IsGenerator; hide Xor;
    var E := Reduce(g, d, ErrorPoly(ps));
    GeneratorSize(f, t, g, d);
    ReduceBound(g, d, ErrorPoly(ps));
    XorBound(R, E, d);
    var v := Xor(R, E);
    forall j: nat | j < t ensures EvalAt(f, v, j) == 0 {
      EvalRemainder(f, t, g, d, ErrorPoly(ps), j);
      EvalErrors(f, 2 * t + 1, ps, j);
      assert SynSeries(f, syn)[2 * j + 1] == syn[2 * j];
      EvalAtXor(f, R, E, j);
      XorSelf(syn[2 * j]);
    }
    VanishesIsZero(f, t, g, d, v);
    XorZeroEqual(R, E);
  }

  lemma GeneratorSize(f: Field, t: nat, g: nat, d: nat)
    requires IsGenerator(f, t, g, d)
    ensures HasDegree(g, d) && d > 0
  {
    hide HasDegree; hide Field.Valid; hide EvalBits; hide A;
  }

  lemma {:induction false} EvalAtXor(f: Field, u: nat, v: nat, j: nat)
    requires f.Valid()
    ensures EvalAt(f, Xor(u, v), j) == Xor(EvalAt(f, u, j), EvalAt(f, v, j))
  {
    hide A; hide EvalBits; hide Field.Valid; hide Xor; hide Pow2;
    AlphaMod(f, 2 * j + 1);
    EvalXor(f, u, v, A(f, 2 * j + 1));
  }

  /** The syndromes computed from a remainder have squares at the even places. */
  lemma {:induction false} SyndromesSquared(f: Field, t: nat, syn: seq<nat>)
    requires f.Valid() && |syn| == 2 * t && Elements(f, syn) && forall j: nat | j < t :: SquareAt(f, syn, j)
    ensures Squared(f, SynSeries(f, syn))
  {
    hide Field.Valid; hide Field.Mul; hide Field.Sqr; hide Pow2;
    FieldSize(f);
    var T := SynSeries(f, syn);
    forall j: nat | 2 * j < |T| ensures T[2 * j] == f.Mul(T[j], T[j]) {
      if j == 0 {
        MulOne(f, 1);
      } else {
        assert SquareAt(f, syn, j - 1);
        SqrIsMul(f, syn[j - 1]);
      }
    }
  }
}
