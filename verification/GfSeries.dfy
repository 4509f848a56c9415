/** Power series over GF(2^m) cut off after n terms, and their multiplication by polynomials. */
module GfSeries {
  import opened Bits
  import opened GaloisField
  import opened FieldLaws
  import opened Generator

  /** Sequences of field elements; a series is one of the length that is cut to. */
  ghost predicate Series(f: Field, s: seq<nat>) {
    f.Valid() && s != [] && Elements(f, s)
  }

  ghost function Plus(f: Field, p: seq<nat>, q: seq<nat>): (r: seq<nat>)
    requires Elements(f, p) && Elements(f, q) && |p| == |q|
    ensures |r| == |p| && Elements(f, r) && forall i | 0 <= i < |r| :: r[i] == Xor(p[i], q[i])
  {
    forall i | 0 <= i < |p| ensures Xor(p[i], q[i]) <= f.N() { ElemXor(f, p[i], q[i]); }
    seq(|p|, i requires 0 <= i < |p| => Xor(p[i], q[i]))
  }

  ghost function Scale(f: Field, c: nat, p: seq<nat>): (r: seq<nat>)
    requires f.Valid() && Elements(f, p) && c <= f.N()
    ensures |r| == |p| && Elements(f, r) && forall i | 0 <= i < |r| :: r[i] == f.Mul(c, p[i])
  {
    seq(|p|, i requires 0 <= i < |p| => f.Mul(c, p[i]))
  }

  /** x * s, cut off. */
  ghost function Up(s: seq<nat>): (r: seq<nat>)
    requires s != []
    ensures |r| == |s| && r[0] == 0 && forall i | 1 <= i < |r| :: r[i] == s[i - 1]
  {
    [0] + s[..|s| - 1]
  }

  lemma UpElements(f: Field, s: seq<nat>)
    requires s != [] && Elements(f, s)
    ensures Elements(f, Up(s))
  {
  }

  ghost function None(n: nat): (r: seq<nat>)
    ensures |r| == n && forall i | 0 <= i < n :: r[i] == 0
  {
    seq(n, i => 0)
  }

  ghost function One(n: nat): (r: seq<nat>)
    requires n > 0
    ensures |r| == n && r[0] == 1 && forall i | 1 <= i < n :: r[i] == 0
  {
    [1] + None(n - 1)
  }

  /** The polynomial p times the series b. */
  ghost function Times(f: Field, p: seq<nat>, b: seq<nat>): (r: seq<nat>)
    requires Series(f, b) && Elements(f, p)
    ensures |r| == |b| && Elements(f, r)
  {
    if p == [] then None(|b|)
    else
      var rest := Times(f, p[1..], b);
      UpElements(f, rest);
      Plus(f, Scale(f, p[0], b), Up(rest))
  }

  /** One coefficient of the product. */
  lemma TimesAt(f: Field, p: seq<nat>, b: seq<nat>, m: nat)
    requires Series(f, b) && Elements(f, p) && m < |b| && p != []
    ensures Times(f, p, b)[m] == Xor(f.Mul(p[0], b[m]), if m == 0 then 0 else Times(f, p[1..], b)[m - 1])
  {
    hide Xor; hide Field.Mul;
  }

  lemma {:induction false} TimesAtZero(f: Field, p: seq<nat>, b: seq<nat>, m: nat)
    requires Series(f, b) && Elements(f, p) && m < |b| && p != [] && (p[0] == 0 || b[m] == 0)
    ensures Elements(f, p[1..]) && Times(f, p, b)[m] == if m == 0 then 0 else Times(f, p[1..], b)[m - 1]
  {
    hide Xor; hide Field.Mul; hide Times; hide Field.Valid; hide Pow2;
    TimesAt(f, p, b, m);
    MulZero(f, p[0], b[m]);
    if m > 0 { XorZero(Times(f, p[1..], b)[m - 1]); } else { XorZero(0); }
  }

  lemma TimesEmpty(f: Field, b: seq<nat>)
    requires Series(f, b)
    ensures Times(f, [], b) == None(|b|)
  {
  }

  // ----- sums

  lemma {:induction false} PlusSwap(f: Field, a: seq<nat>, b: seq<nat>, c: seq<nat>, d: seq<nat>)
    requires Elements(f, a) && Elements(f, b) && Elements(f, c) && Elements(f, d) && |a| == |b| == |c| == |d|
    ensures Plus(f, Plus(f, a, b), Plus(f, c, d)) == Plus(f, Plus(f, a, c), Plus(f, b, d))
  {
    hide Xor;
    var l, r := Plus(f, Plus(f, a, b), Plus(f, c, d)), Plus(f, Plus(f, a, c), Plus(f, b, d));
    forall i | 0 <= i < |a| ensures l[i] == r[i] { XorSwap(a[i], b[i], c[i], d[i]); }
  }

  lemma {:induction false} PlusComm(f: Field, a: seq<nat>, b: seq<nat>)
    requires Elements(f, a) && Elements(f, b) && |a| == |b|
    ensures Plus(f, a, b) == Plus(f, b, a)
  {
    hide Xor;
    forall i | 0 <= i < |a| ensures Plus(f, a, b)[i] == Plus(f, b, a)[i] { XorComm(a[i], b[i]); }
  }

  lemma {:induction false} PlusNone(f: Field, a: seq<nat>)
    requires Elements(f, a)
    ensures Plus(f, a, None(|a|)) == a && Plus(f, a, a) == None(|a|)
  {
    hide Xor;
    var l, r := Plus(f, a, None(|a|)), Plus(f, a, a);
    forall i | 0 <= i < |a| ensures l[i] == a[i] && r[i] == 0 { XorZero(a[i]); XorSelf(a[i]); }
  }

  lemma {:induction false} ScalePlus(f: Field, c: nat, a: seq<nat>, b: seq<nat>)
    requires f.Valid() && c <= f.N() && Elements(f, a) && Elements(f, b) && |a| == |b|
    ensures Scale(f, c, Plus(f, a, b)) == Plus(f, Scale(f, c, a), Scale(f, c, b))
  {
    hide Xor; hide Field.Mul; hide Field.Valid; hide Pow2;
    var l, r := Scale(f, c, Plus(f, a, b)), Plus(f, Scale(f, c, a), Scale(f, c, b));
    forall i | 0 <= i < |a| ensures l[i] == r[i] { MulXor(f, c, a[i], b[i]); }
  }

  lemma {:induction false} PlusScale(f: Field, c: nat, d: nat, a: seq<nat>)
    requires f.Valid() && c <= f.N() && d <= f.N() && Elements(f, a)
    ensures Xor(c, d) <= f.N() && Scale(f, Xor(c, d), a) == Plus(f, Scale(f, c, a), Scale(f, d, a))
  {
    hide Xor; hide Field.Mul; hide Field.Valid; hide Pow2;
    ElemXor(f, c, d);
    var l, r := Scale(f, Xor(c, d), a), Plus(f, Scale(f, c, a), Scale(f, d, a));
    forall i | 0 <= i < |a| ensures l[i] == r[i] { MulXor(f, a[i], c, d); }
  }

  lemma {:induction false} ScaleScale(f: Field, c: nat, d: nat, a: seq<nat>)
    requires f.Valid() && c <= f.N() && d <= f.N() && Elements(f, a)
    ensures Scale(f, c, Scale(f, d, a)) == Scale(f, f.Mul(c, d), a) == Scale(f, d, Scale(f, c, a))
  {
    hide Field.Mul; hide Field.Valid; hide Pow2;
    MulComm(f, c, d);
    forall i | 0 <= i < |a|
      ensures Scale(f, c, Scale(f, d, a))[i] == Scale(f, f.Mul(c, d), a)[i] == Scale(f, d, Scale(f, c, a))[i]
    {
      MulAssoc(f, c, d, a[i]); MulAssoc(f, d, c, a[i]);
    }
  }

  lemma UpPlus(f: Field, a: seq<nat>, b: seq<nat>)
    requires Elements(f, a) && Elements(f, b) && |a| == |b| && a != []
    ensures Elements(f, Up(a)) && Elements(f, Up(b)) && Up(Plus(f, a, b)) == Plus(f, Up(a), Up(b))
  {
    UpElements(f, a); UpElements(f, b);
    XorZero(0);
    hide Xor;
  }

  lemma UpScale(f: Field, c: nat, a: seq<nat>)
    requires f.Valid() && c <= f.N() && Elements(f, a) && a != []
    ensures Elements(f, Up(a)) && Up(Scale(f, c, a)) == Scale(f, c, Up(a))
  {
    hide Field.Mul; hide Field.Valid; hide Pow2;
    UpElements(f, a);
    MulZero(f, c, 0);
  }

  // ----- products

  lemma {:induction false} TimesPlus(f: Field, p: seq<nat>, a: seq<nat>, b: seq<nat>)
    requires Series(f, a) && Series(f, b) && |a| == |b| && Elements(f, p)
    ensures Plus(f, a, b) != [] && Times(f, p, Plus(f, a, b)) == Plus(f, Times(f, p, a), Times(f, p, b))
  {
    if p == [] {
      PlusNone(f, None(|a|));
    } else {
      hide Plus; hide Scale; hide Up; hide Field.Valid; hide Pow2;
      TimesPlus(f, p[1..], a, b);
      var x, y := Times(f, p[1..], a), Times(f, p[1..], b);
      ScalePlus(f, p[0], a, b);
      UpPlus(f, x, y);
      PlusSwap(f, Scale(f, p[0], a), Scale(f, p[0], b), Up(x), Up(y));
    }
  }

  lemma {:induction false} TimesScale(f: Field, p: seq<nat>, c: nat, b: seq<nat>)
    requires Series(f, b) && Elements(f, p) && c <= f.N()
    ensures Times(f, p, Scale(f, c, b)) == Scale(f, c, Times(f, p, b))
  {
    if p == [] {
      hide Field.Mul;
      MulZero(f, c, 0);
      assert Scale(f, c, None(|b|)) == None(|b|);
    } else {
      hide Plus; hide Scale; hide Up; hide Field.Valid; hide Pow2;
      TimesScale(f, p[1..], c, b);
      var x := Times(f, p[1..], b);
      UpElements(f, x);
      ScaleScale(f, p[0], c, b);
      UpScale(f, c, x);
      ScalePlus(f, c, Scale(f, p[0], b), Up(x));
    }
  }

  lemma {:induction false} TimesUp(f: Field, p: seq<nat>, b: seq<nat>)
    requires Series(f, b) && Elements(f, p)
    ensures Elements(f, Up(b)) && Times(f, p, Up(b)) == Up(Times(f, p, b))
  {
    UpElements(f, b);
    if p == [] {
      assert Up(None(|b|)) == None(|b|);
    } else {
      hide Plus; hide Scale; hide Up; hide Field.Valid; hide Pow2;
      TimesUp(f, p[1..], b);
      var x := Times(f, p[1..], b);
      UpElements(f, x);
      UpScale(f, p[0], b);
      UpPlus(f, Scale(f, p[0], b), Up(x));
    }
  }

  /** Two polynomials may be applied in either order. */
  lemma {:induction false} TimesTimes(f: Field, p: seq<nat>, q: seq<nat>, b: seq<nat>)
    requires Series(f, b) && Elements(f, p) && Elements(f, q)
    ensures Times(f, p, Times(f, q, b)) == Times(f, q, Times(f, p, b))
  {
    if p == [] {
      TimesNothing(f, q, |b|);
    } else {
      hide Plus; hide Scale; hide Up; hide Field.Valid; hide Pow2;
      TimesTimes(f, p[1..], q, b);
      var x := Times(f, p[1..], b);
      UpElements(f, x);
      TimesScale(f, q, p[0], b);
      TimesUp(f, q, x);
      TimesPlus(f, q, Scale(f, p[0], b), Up(x));
    }
  }

  lemma {:induction false} TimesNothing(f: Field, q: seq<nat>, n: nat)
    requires f.Valid() && n > 0 && Elements(f, q)
    ensures Times(f, q, None(n)) == None(n)
  {
    if q != [] {
      hide Field.Mul; hide Xor; hide Field.Valid; hide Pow2;
      TimesNothing(f, q[1..], n);
      MulZero(f, q[0], 0); XorZero(0);
      assert forall i | 0 <= i < n :: Times(f, q, None(n))[i] == 0;
    }
  }

  /** Coefficient m depends on the coefficients of the polynomial up to m. */
  lemma {:induction false} TimesAgree(f: Field, p: seq<nat>, q: seq<nat>, b: seq<nat>, m: nat)
    requires Series(f, b) && Elements(f, p) && Elements(f, q) && m < |b|
    requires forall j | 0 <= j <= m :: Coef(p, j) == Coef(q, j)
    ensures Times(f, p, b)[m] == Times(f, q, b)[m]
    decreases m
  {
    hide Times; hide Xor; hide Field.Mul; hide Field.Valid; hide Pow2;
    if p != [] && q != [] {
      TimesAt(f, p, b, m); TimesAt(f, q, b, m);
      assert Coef(p, 0) == Coef(q, 0);
      if m > 0 {
        forall j | 0 <= j <= m - 1 ensures Coef(p[1..], j) == Coef(q[1..], j) { assert Coef(p, j + 1) == Coef(q, j + 1); }
        TimesAgree(f, p[1..], q[1..], b, m - 1);
      }
    } else if p == [] {
      forall j | 0 <= j <= m ensures Coef(q, j) == 0 { assert Coef(p, j) == Coef(q, j); }
      TimesZeros(f, q, b, m);
      TimesZeros(f, p, b, m);
    } else {
      forall j | 0 <= j <= m ensures Coef(p, j) == 0 { assert Coef(p, j) == Coef(q, j); }
      TimesZeros(f, p, b, m);
      TimesZeros(f, q, b, m);
    }
  }

  lemma {:induction false} TimesZeros(f: Field, p: seq<nat>, b: seq<nat>, m: nat)
    requires Series(f, b) && Elements(f, p) && m < |b| && forall j | 0 <= j <= m :: Coef(p, j) == 0
    ensures Times(f, p, b)[m] == 0
    decreases m
  {
    hide Times; hide Field.Valid; hide Pow2;
    if p == [] {
      TimesEmpty(f, b);
    } else {
      assert Coef(p, 0) == 0;
      TimesAtZero(f, p, b, m);
      if m > 0 {
        forall j | 0 <= j <= m - 1 ensures Coef(p[1..], j) == 0 { assert Coef(p, j + 1) == 0; }
        TimesZeros(f, p[1..], b, m - 1);
      }
    }
  }

  /** Linearity in the polynomial. */
  lemma {:induction false} PlusTimes(f: Field, p: seq<nat>, q: seq<nat>, b: seq<nat>)
    requires Series(f, b) && Elements(f, p) && Elements(f, q) && |p| == |q|
    ensures Times(f, Plus(f, p, q), b) == Plus(f, Times(f, p, b), Times(f, q, b))
  {
    if p == [] {
      PlusNone(f, None(|b|));
    } else {
      assert Plus(f, p, q)[1..] == Plus(f, p[1..], q[1..]);
      hide Plus; hide Scale; hide Up; hide Field.Valid; hide Pow2; hide Xor;
      PlusTimes(f, p[1..], q[1..], b);
      var x, y := Times(f, p[1..], b), Times(f, q[1..], b);
      PlusScale(f, p[0], q[0], b);
      UpPlus(f, x, y);
      PlusSwap(f, Scale(f, p[0], b), Scale(f, q[0], b), Up(x), Up(y));
    }
  }

  lemma {:induction false} ScaleTimes(f: Field, c: nat, p: seq<nat>, b: seq<nat>)
    requires Series(f, b) && Elements(f, p) && c <= f.N()
    ensures Times(f, Scale(f, c, p), b) == Scale(f, c, Times(f, p, b))
  {
    if p == [] {
      hide Field.Mul;
      MulZero(f, c, 0);
      assert Scale(f, c, None(|b|)) == None(|b|);
    } else {
      assert Scale(f, c, p)[1..] == Scale(f, c, p[1..]);
      hide Plus; hide Scale; hide Up; hide Field.Valid; hide Pow2;
      ScaleTimes(f, c, p[1..], b);
      var x := Times(f, p[1..], b);
      UpElements(f, x);
      ScaleScale(f, c, p[0], b);
      UpScale(f, c, x);
      ScalePlus(f, c, Scale(f, p[0], b), Up(x));
    }
  }

  /** x^k p, where it is not cut off. */
  lemma {:induction false} TimesShifted(f: Field, p: seq<nat>, k: nat, b: seq<nat>, m: nat)
    requires Series(f, b) && Elements(f, p) && m < |b|
    ensures Elements(f, None(k) + p)
    ensures Times(f, None(k) + p, b)[m] == if m < k then 0 else Times(f, p, b)[m - k]
    decreases k
  {
    hide Times; hide Xor; hide Field.Mul; hide Field.Valid; hide Pow2;
    var q := None(k) + p;
    if k == 0 {
      assert q == p;
    } else {
      assert q[1..] == None(k - 1) + p;
      TimesAt(f, q, b, m);
      MulZero(f, 0, b[m]);
      if m > 0 {
        TimesShifted(f, p, k - 1, b, m - 1);
        XorZero(Times(f, q[1..], b)[m - 1]);
      } else {
        XorZero(0);
      }
    }
  }

  lemma {:induction false} UpTimes(f: Field, p: seq<nat>, b: seq<nat>)
    requires Series(f, b) && Elements(f, p) && p != []&& |p| == |b|
    ensures Elements(f, Up(p)) && Times(f, Up(p), b) == Up(Times(f, p, b))
  {
    hide Times; hide Field.Valid; hide Pow2;
    UpElements(f, p);
    var l, r := Times(f, Up(p), b), Up(Times(f, p, b));
    forall m | 0 <= m < |b| ensures l[m] == r[m] {
      TimesShifted(f, p, 1, b, m);
      TimesAgree(f, Up(p), None(1) + p, b, m);
    }
  }

  lemma {:induction false} TimesOne(f: Field, p: seq<nat>)
    requires Series(f, p)
    ensures Elements(f, One(|p|)) && Times(f, p, One(|p|)) == p
  {
    hide Field.Valid; hide Pow2; hide Times;
    FieldSize(f);
    var n := |p|;
    forall m | 0 <= m < n ensures Times(f, p, One(n))[m] == p[m] { TimesOneAt(f, p, n, m); }
  }

  lemma {:induction false} TimesOneAt(f: Field, p: seq<nat>, n: nat, m: nat)
    requires f.Valid() && Elements(f, p) && m < n && m < |p|
    ensures Elements(f, One(n)) && Times(f, p, One(n))[m] == p[m]
    decreases m
  {
    hide Field.Valid; hide Pow2; hide Times; hide Xor; hide Field.Mul;
    FieldSize(f);
    TimesAt(f, p, One(n), m);
    if m == 0 {
      MulOne(f, p[0]); XorZero(p[0]);
    } else {
      MulZero(f, p[0], 0);
      TimesOneAt(f, p[1..], n, m - 1);
      XorZero(p[m]);
    }
  }

  lemma {:induction false} TimesComm(f: Field, p: seq<nat>, q: seq<nat>)
    requires Series(f, p) && Series(f, q) && |p| == |q|
    ensures Times(f, p, q) == Times(f, q, p)
  {
    hide Field.Valid; hide Pow2; hide Times;
    TimesOne(f, p); TimesOne(f, q);
    TimesTimes(f, p, q, One(|p|));
  }

  // ----- low and high coefficients

  /** A series that begins with m zeros. */
  lemma {:induction false} TimesLow(f: Field, p: seq<nat>, b: seq<nat>, m: nat)
    requires Series(f, b) && Elements(f, p) && m < |b| && p != [] && forall j | 0 <= j < m :: b[j] == 0
    ensures Times(f, p, b)[m] == f.Mul(p[0], b[m])
  {
    hide Field.Valid; hide Pow2; hide Times; hide Xor; hide Field.Mul;
    TimesAt(f, p, b, m);
    XorZero(f.Mul(p[0], b[m]));
    if m > 0 { TimesLower(f, p[1..], b, m, m - 1); }
  }

  lemma {:induction false} TimesLower(f: Field, p: seq<nat>, b: seq<nat>, m: nat, k: nat)
    requires Series(f, b) && Elements(f, p) && k < m <= |b| && forall j | 0 <= j < m :: b[j] == 0
    ensures Times(f, p, b)[k] == 0
    decreases k
  {
    hide Field.Valid; hide Pow2; hide Times;
    if p == [] {
      TimesEmpty(f, b);
    } else {
      TimesAtZero(f, p, b, k);
      if k > 0 { TimesLower(f, p[1..], b, m, k - 1); }
    }
  }

  /** No coefficient past a. */
  ghost predicate Within(p: seq<nat>, a: int) {
    forall j | 0 <= j < |p| && j > a :: p[j] == 0
  }

  lemma {:induction false} TimesWithin(f: Field, p: seq<nat>, a: nat, b: seq<nat>, c: nat, m: nat)
    requires Series(f, b) && Elements(f, p) && Within(p, a) && Within(b, c) && a + c < m < |b|
    ensures Times(f, p, b)[m] == 0
    decreases a
  {
    hide Field.Valid; hide Pow2; hide Times;
    if p == [] {
      TimesEmpty(f, b);
    } else {
      TimesAtZero(f, p, b, m);
      if a == 0 {
        WithinNone(p);
        TimesZeros(f, p[1..], b, m - 1);
      } else {
        hide Within;
        WithinTail(p, a);
        TimesWithin(f, p[1..], a - 1, b, c, m - 1);
      }
    }
  }

  lemma WithinNone(p: seq<nat>)
    requires Within(p, 0) && p != []
    ensures forall j: nat :: Coef(p[1..], j) == 0
  {
  }

  lemma WithinTail(p: seq<nat>, a: nat)
    requires Within(p, a) && p != [] && a > 0
    ensures Within(p[1..], a - 1)
  {
    forall j | 0 <= j < |p[1..]| && j > a - 1 ensures p[1..][j] == 0 { assert p[j + 1] == 0; }
  }
}
