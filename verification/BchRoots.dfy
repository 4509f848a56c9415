/** The roots of a locator: in closed form for degree one, and by Chien search for any degree. */
module BchRoots {
  import opened Bits
  import opened GaloisField
  import opened FieldLaws
  import opened Generator
  import opened GfSeries
  import opened Locators
  import opened GfPolyDivision

  /** The same positions, in any order. */
  ghost predicate SamePositions(rs: seq<nat>, ps: seq<nat>) {
    && |rs| == |ps| && (forall x :: x in rs <==> x in ps)
    && (forall i, j | 0 <= i < j < |rs| :: rs[i] != rs[j])
  }

  /** Distinct positions at whose inverses the polynomial vanishes. */
  ghost predicate RootsOf(f: Field, c: seq<nat>, rs: seq<nat>) {
    f.Valid() && Elements(f, c) && Positions(f, rs) && forall i | 0 <= i < |rs| :: Eval(f, c, Inverse(f, rs[i])) == 0
  }

  /** Coefficients that are zero do not matter. */
  lemma {:induction false} RootsOfPadded(f: Field, c: seq<nat>, deg: nat, rs: seq<nat>)
    requires f.Valid() && Elements(f, c) && deg < |c| && Within(c, deg) && RootsOf(f, c[..deg + 1], rs)
    ensures RootsOf(f, c, rs)
  {
    hide Field.Valid; hide Pow2; hide Eval; hide Inverse;
    forall i | 0 <= i < |rs| ensures Eval(f, c, Inverse(f, rs[i])) == 0 {
      EvalPadded(f, c, deg + 1, Inverse(f, rs[i]));
    }
  }

  // ----- degree one

  /** find_poly_deg1_roots: the logarithm of the inverse of the root, if the constant term allows. */
  function Degree1Roots(f: Field, c: seq<nat>): (roots: seq<nat>)
    requires f.Valid() && |c| >= 2 && c[0] <= f.N() && c[1] <= f.N()
    ensures |roots| == if c[0] != 0 then 1 else 0
  {
    if c[0] != 0 then
      LogsInRange(f, c[0], c[1]);
      [f.ModS(f.N() - f.log[c[0]] + f.log[c[1]])]
    else []
  }

  /** The root of the locator of one error is its position. */
  lemma {:induction false} Degree1RootOfLocator(f: Field, n: nat, ps: seq<nat>)
    requires f.Valid() && n >= 2 && |ps| == 1 && Positions(f, ps)
    ensures Degree1Roots(f, Locator(f, n, ps)) == ps
  {
    hide Pow2; hide A; hide Locator; hide Field.Valid;
    var p := ps[0];
    LinearLocator(f, n, ps);
    AlphaMod(f, p); AlphaMod(f, 0); FieldSize(f);
    assert p % f.N() == p && 0 % f.N() == 0;
    assert ps == [p];
  }

  lemma {:induction false} LinearLocator(f: Field, n: nat, ps: seq<nat>)
    requires f.Valid() && n >= 2 && |ps| == 1
    ensures Locator(f, n, ps)[0] == 1 && Locator(f, n, ps)[1] == A(f, ps[0])
  {
    hide Pow2; hide A; hide Xor; hide Field.Mul; hide Locator; hide Field.Valid; hide TimesFactor;
    var p := ps[0];
    LocatorNext(f, n, ps); LocatorNone(f, n);
    assert ps[..0] == [];
    FieldSize(f); AlphaMod(f, p);
    FactorAt(f, One(n), p, 0); FactorAt(f, One(n), p, 1);
    MulOne(f, A(f, p)); XorZero(1); XorZero(A(f, p));
  }

  /** The position found is a root. */
  lemma {:induction false} Degree1Sound(f: Field, c: seq<nat>)
    requires f.Valid() && |c| >= 2 && c[0] == 1 && 0 < c[1] <= f.N() && 1 <= f.N()
    ensures RootsOf(f, c[..2], Degree1Roots(f, c))
  {
    hide Pow2; hide A; hide Field.Valid; hide Xor; hide Field.Mul;
    LogsInRange(f, 1, c[1]);
    LogAlpha(f, c[1]);
    var r := f.log[c[1]];
    AlphaMod(f, 0); FieldSize(f);
    ModSmall(0, f.N());
    assert Degree1Roots(f, c) == [r];
    var x := Inverse(f, r);
    InverseIff(f, r, r);
    var d := c[..2];
    assert d[1..] == [c[1]] && [c[1]][1..] == [];
    MulZero(f, x, 0); XorZero(c[1]);
    MulComm(f, x, c[1]);
    assert Eval(f, [], x) == 0 && Eval(f, [c[1]], x) == c[1];
    XorSelf(1);
  }

  // ----- Chien search

  /** The value of the monic polynomial at alpha^i, summed through logarithms. */
  method ValueAt(f: Field, rep: seq<int>, deg: nat, i: nat, syn0: nat, ghost m: seq<nat>, ghost lead: bool) returns (syn: nat)
    requires f.Valid() && |rep| == deg + 1 && (forall j | 0 <= j <= deg :: -1 <= rep[j]) && syn0 <= f.N() && rep[deg] == 0
    requires lead ==> IsLogRep(f, m, rep[..deg]) && m[deg] == 1 && m[0] == syn0
    ensures lead ==> A(f, i) <= f.N() && syn == Eval(f, m, A(f, i))
  {
    hide Field.Valid; hide Pow2; hide A; hide Xor; hide Field.Mul; hide Eval; hide Field.APow; hide RestAt;
    syn := syn0;
    AlphaMod(f, i);
    ghost var x, e := A(f, i), i;
    if lead { FirstTerm(f, m, x); }
    var j := 1;
    assert 1 * i == i;
    while j <= deg
      invariant 1 <= j <= deg + 1 && syn <= f.N() && e == j * i
      invariant lead ==> A(f, e) <= f.N() && RestAt(f, m, x, A(f, e), j, syn)
    {
      var l := rep[j];
      AlphaMul(f, e, i);
      if l >= 0 {
        AlphaMod(f, l + j * i);
        if lead {
          TermAt(f, m, rep[..deg], e, j, l);
          NextTerm(f, m, x, A(f, e), j, syn);
        }
        ElemXor(f, syn, f.APow(l + j * i));
        syn := Xor(syn, f.APow(l + j * i));
      } else if lead {
        ZeroRep(f, m, rep[..deg], j);
        ZeroTerm(f, m, x, A(f, e), j, syn);
      }
      assert (j + 1) * i == j * i + i;
      e := e + i;
      j := j + 1;
    }
    if lead { LastTerm(f, m, x, A(f, e), syn); }
  }

  /** syn and y times the rest of the polynomial make up its value at x. */
  ghost predicate RestAt(f: Field, m: seq<nat>, x: nat, y: nat, j: nat, syn: nat) {
    && f.Valid() && Elements(f, m) && j <= |m| && x <= f.N() && y <= f.N()
    && Xor(syn, f.Mul(y, Eval(f, m[j..], x))) == Eval(f, m, x)
  }

  lemma {:induction false} FirstTerm(f: Field, m: seq<nat>, x: nat)
    requires f.Valid() && Elements(f, m) && m != [] && x <= f.N()
    ensures RestAt(f, m, x, x, 1, m[0])
  {
    hide Field.Valid; hide Pow2; hide Xor; hide Field.Mul;
  }

  lemma {:induction false} NextTerm(f: Field, m: seq<nat>, x: nat, y: nat, j: nat, syn: nat)
    requires RestAt(f, m, x, y, j, syn) && j < |m|
    ensures RestAt(f, m, x, f.Mul(y, x), j + 1, Xor(syn, f.Mul(y, m[j])))
  {
    hide Field.Valid; hide Pow2; hide Xor; hide Field.Mul;
    assert m[j..][1..] == m[j + 1..];
    var v := Eval(f, m[j + 1..], x);
    MulXor(f, y, m[j], f.Mul(x, v));
    MulAssoc(f, y, x, v);
    XorAssoc(syn, f.Mul(y, m[j]), f.Mul(y, f.Mul(x, v)));
  }

  lemma {:induction false} ZeroTerm(f: Field, m: seq<nat>, x: nat, y: nat, j: nat, syn: nat)
    requires RestAt(f, m, x, y, j, syn) && j < |m| && m[j] == 0
    ensures RestAt(f, m, x, f.Mul(y, x), j + 1, syn)
  {
    hide Field.Valid; hide Pow2; hide Xor; hide Field.Mul;
    MulZero(f, y, 0);
    NextTerm(f, m, x, y, j, syn);
    XorZero(syn);
  }

  lemma ZeroRep(f: Field, m: seq<nat>, rep: seq<int>, j: nat)
    requires IsLogRep(f, m, rep) && j < |rep| && rep[j] < 0
    ensures m[j] == 0
  {
    LogsInRange(f, m[j], m[j]);
  }

  lemma {:induction false} LastTerm(f: Field, m: seq<nat>, x: nat, y: nat, syn: nat)
    requires RestAt(f, m, x, y, |m|, syn)
    ensures syn == Eval(f, m, x)
  {
    hide Field.Valid; hide Pow2; hide Xor; hide Field.Mul;
    assert m[|m|..] == [];
    MulZero(f, y, 0);
    XorZero(syn);
  }

  lemma {:induction false} TermAt(f: Field, m: seq<nat>, rep: seq<int>, e: nat, j: nat, l: nat)
    requires IsLogRep(f, m, rep) && m[|rep|] == 1 && j <= |rep| && l == if j == |rep| then 0 else rep[j]
    ensures A(f, e) <= f.N() && f.APow(l + e) == f.Mul(A(f, e), m[j])
  {
    hide Pow2; hide A; hide Field.APow; hide Field.Mul;
    AlphaMod(f, l + e); AlphaMod(f, e);
    FieldSize(f);
    if j == |rep| {
      MulOne(f, A(f, e));
    } else {
      LogAlpha(f, m[j]);
      AlphaMul(f, e, l);
    }
  }

  /** chien_search: every position below k is tried, from the highest on, until as many roots are found as the degree says. */
  method ChienSearch(f: Field, elp: array<nat>, deg: nat, k: nat) returns (roots: seq<nat>)
    requires f.Valid() && 0 < deg < elp.Length && Elements(f, elp[..]) && k <= f.N()
    ensures |roots| <= deg && (roots == [] || |roots| == deg) && forall i | 0 <= i < |roots| :: roots[i] < k
    ensures forall ps: seq<nat> | IsLocatorOf(f, elp[..], deg, k, ps) :: SamePositions(roots, ps)
    ensures elp[deg] != 0 ==> RootsOf(f, elp[..deg + 1], roots)
  {
    hide Field.Valid; hide Pow2; hide A; hide Xor; hide Field.Mul; hide Eval; hide Monic; hide IsLogRep; hide IsLocatorOf; hide Field.Div;
    ghost var c := elp[..deg + 1];
    ghost var m := Monic(f, c);
    var cache := new int[deg + 1](_ => 0);
    LogRep(f, elp, deg, cache);
    cache[deg] := 0;
    var rep := cache[..];
    assert rep[..deg] == cache[..deg];
    var syn0 := f.Div(elp[0], elp[deg]);
    ghost var lead := elp[deg] != 0;
    if lead { MonicParts(f, c); }
    roots := [];
    var r := k;
    while r > 0 && |roots| < deg
      invariant 0 <= r <= k && |roots| <= deg && Found(f, c, roots, r, k)
    {
      r := r - 1;
      var syn := ValueAt(f, rep, deg, f.N() - r, syn0, m, lead);
      FoundNext(f, c, roots, r, k, syn);
      if syn == 0 {
        roots := roots + [r];
      }
    }
    forall ps: seq<nat> | IsLocatorOf(f, elp[..], deg, k, ps) ensures |roots| == deg && SamePositions(roots, ps) {
      FoundAll(f, elp[..], deg, k, ps, roots, r);
    }
    FoundRoots(f, c, roots, r, k);
    if |roots| != deg {
      roots := [];
    }
  }

  lemma {:induction false} FoundRoots(f: Field, c: seq<nat>, roots: seq<nat>, r: nat, k: nat)
    requires Found(f, c, roots, r, k)
    ensures c[|c| - 1] != 0 ==> RootsOf(f, c, roots)
  {
    hide Field.Valid; hide Pow2; hide A; hide Eval; hide Inverse;
    forall i | 0 <= i < |roots| ensures roots[i] in roots && roots[i] < k { }
  }

  /** elp is the locator of the positions ps, all below k. */
  ghost predicate IsLocatorOf(f: Field, elp: seq<nat>, deg: nat, k: nat, ps: seq<nat>) {
    f.Valid() && |ps| == deg < |elp| && Positions(f, ps) && (forall i | 0 <= i < |ps| :: ps[i] < k) && elp == Locator(f, |elp|, ps)
  }

  /** The roots between r and k, distinct and below k. */
  ghost predicate Found(f: Field, c: seq<nat>, roots: seq<nat>, r: nat, k: nat)
  {
    && f.Valid() && Elements(f, c) && c != [] && r <= k <= f.N()
    && (forall i, j | 0 <= i < j < |roots| :: roots[i] != roots[j])
    && (forall i | 0 <= i < |roots| :: r <= roots[i] < k)
    && (c[|c| - 1] != 0 ==> forall q: nat | r <= q < k :: q in roots <==> Eval(f, c, Inverse(f, q)) == 0)
  }

  lemma {:induction false} MonicParts(f: Field, c: seq<nat>)
    requires f.Valid() && Elements(f, c) && c != [] && c[|c| - 1] != 0
    ensures Monic(f, c)[|c| - 1] == 1 && Monic(f, c)[0] == f.Div(c[0], c[|c| - 1])
  {
    hide Field.Valid; hide Pow2; hide Field.Mul; hide Field.Div;
    MonicLead(f, c);
  }

  /** A polynomial and its monic form have the same roots. */
  lemma {:induction false} MonicRoots(f: Field, c: seq<nat>, x: nat)
    requires f.Valid() && Elements(f, c) && c != [] && c[|c| - 1] != 0 && x <= f.N()
    ensures Eval(f, c, x) == 0 <==> Eval(f, Monic(f, c), x) == 0
  {
    hide Field.Valid; hide Pow2; hide Field.Mul; hide Field.Div; hide Monic; hide Eval;
    MonicLead(f, c);
    var m, b := Monic(f, c), c[|c| - 1];
    forall i | 0 <= i < |c| ensures Scale(f, b, m)[i] == c[i] { MulComm(f, b, m[i]); }
    assert Scale(f, b, m) == c;
    EvalScale(f, b, m, x);
    MulZero(f, b, Eval(f, m, x));
  }

  lemma {:induction false} FoundNext(f: Field, c: seq<nat>, roots: seq<nat>, r: nat, k: nat, syn: nat)
    requires Found(f, c, roots, r + 1, k)
    requires c[|c| - 1] != 0 ==> A(f, f.N() - r) <= f.N() && syn == Eval(f, Monic(f, c), A(f, f.N() - r))
    ensures Found(f, c, if syn == 0 then roots + [r] else roots, r, k)
  {
    hide Field.Valid; hide Pow2; hide A; hide Eval; hide Monic;
    if c[|c| - 1] != 0 {
      MonicRoots(f, c, A(f, f.N() - r));
      assert Inverse(f, r) == A(f, f.N() - r);
    }
  }

  /** When the search ends, all positions of the errors have been found. */
  lemma {:induction false} FoundAll(f: Field, elp: seq<nat>, deg: nat, k: nat, ps: seq<nat>, roots: seq<nat>, r: nat)
    requires IsLocatorOf(f, elp, deg, k, ps) && |roots| <= deg && (r == 0 || |roots| == deg) && Found(f, elp[..deg + 1], roots, r, k)
    ensures |roots| == deg && SamePositions(roots, ps)
  {
    hide Field.Valid; hide Pow2; hide A; hide Eval; hide Locator; hide Inverse;
    var c := elp[..deg + 1];
    LocatorShape(f, |elp|, ps);
    assert c[|c| - 1] == elp[deg] != 0;
    forall q: nat | r <= q < k ensures q in roots <==> q in ps {
      LocatorRootIff(f, |elp|, ps, q);
      EvalPadded(f, elp, deg + 1, Inverse(f, q));
    }
    assert forall x | x in roots :: x in ps;
    if r == 0 { assert forall x | x in ps :: x in roots; }
    SameLength(roots, ps);
  }

  /** Distinct lists, one inside the other. */
  lemma {:induction false} SameLength(rs: seq<nat>, ps: seq<nat>)
    requires (forall i, j | 0 <= i < j < |rs| :: rs[i] != rs[j]) && (forall i, j | 0 <= i < j < |ps| :: ps[i] != ps[j])
    requires (forall x | x in rs :: x in ps) && |rs| <= |ps| && (|rs| == |ps| || forall x | x in ps :: x in rs)
    ensures |rs| == |ps| && SamePositions(rs, ps)
  {
    var a, b := ToSet(rs), ToSet(ps);
    DistinctSize(rs); DistinctSize(ps);
    assert a <= b;
    if forall x | x in ps :: x in rs {
      assert a == b;
    } else {
      SubsetFull(a, b);
    }
  }

  ghost function ToSet(s: seq<nat>): (r: set<nat>)
    ensures forall x :: x in r <==> x in s
  {
    set x | x in s
  }

  lemma {:induction false} DistinctSize(s: seq<nat>)
    requires forall i, j | 0 <= i < j < |s| :: s[i] != s[j]
    ensures |ToSet(s)| == |s|
  {
    if s != [] {
      var k := |s| - 1;
      DistinctSize(s[..k]);
      assert s == s[..k] + [s[k]];
      var before := ToSet(s[..k]);
      assert ToSet(s) == before + {s[k]};
      assert s[k] !in before;
    }
  }
}
