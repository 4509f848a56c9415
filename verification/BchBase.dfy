/** build_deg2_base: for every field the search ends with a full table. */
module BchBase {
  import opened Bits
  import opened BinaryPoly
  import opened GaloisField
  import opened FieldLaws
  import opened Generator
  import opened GfSeries
  import opened Newton
  import opened Locators
  import opened GfPolyDivision
  import opened BchSyndromes
  import opened Traces
  import opened BchDegree2

  // ----- powers by multiplication

  ghost function Power(f: Field, x: nat, e: nat): (r: nat)
    requires f.Valid() && x <= f.N()
    ensures r <= f.N()
  {
    FieldSize(f);
    if e == 0 then 1 else f.Mul(x, Power(f, x, e - 1))
  }

  lemma {:induction false} PowerSum(f: Field, x: nat, a: nat, b: nat)
    requires f.Valid() && x <= f.N()
    ensures Power(f, x, a + b) == f.Mul(Power(f, x, a), Power(f, x, b))
  {
    hide Field.Valid; hide Field.Mul; hide Pow2;
    if a == 0 {
      MulOne(f, Power(f, x, b));
    } else {
      PowerSum(f, x, a - 1, b);
      MulAssoc(f, x, Power(f, x, a - 1), Power(f, x, b));
    }
  }

  lemma {:induction false} PowerFrob(f: Field, x: nat, j: nat)
    requires f.Valid() && x <= f.N()
    ensures Power(f, x, Pow2(j)) == Frob(f, x, j)
  {
    hide Field.Valid; hide Field.Mul; hide Field.Sqr;
    if j == 0 {
      PowerOne(f, x);
    } else {
      PowerFrob(f, x, j - 1);
      PowerSum(f, x, Pow2(j - 1), Pow2(j - 1));
      SqrIsMul(f, Frob(f, x, j - 1));
      assert Pow2(j - 1) + Pow2(j - 1) == Pow2(j);
    }
  }

  lemma {:induction false} PowerOne(f: Field, x: nat)
    requires f.Valid() && x <= f.N()
    ensures Power(f, x, 1) == x
  {
    hide Field.Valid; hide Field.Mul; hide Pow2;
    MulOne(f, x);
    assert Power(f, x, 0) == 1;
  }

  lemma {:induction false} EvalMono(f: Field, n: nat, e: nat, x: nat)
    requires f.Valid() && e < n && x <= f.N()
    ensures Elements(f, Mono(n, e, 1)) && Eval(f, Mono(n, e, 1), x) == Power(f, x, e)
    decreases e
  {
    hide Field.Valid; hide Field.Mul; hide Pow2; hide Xor;
    FieldSize(f);
    var c := Mono(n, e, 1);
    if e == 0 {
      assert c == One(n);
      EvalOne(f, n, x);
    } else {
      assert c[1..] == Mono(n - 1, e - 1, 1);
      EvalMono(f, n - 1, e - 1, x);
      XorZero(Power(f, x, e));
    }
  }

  // ----- the trace is not zero everywhere

  /** x + x^2 + .. + x^(2^(k-1)) as a polynomial of n coefficients. */
  ghost function TracePoly(f: Field, n: nat, k: nat): (p: seq<nat>)
    requires f.Valid() && n > 0 && (k > 0 ==> Pow2(k - 1) < n)
    ensures |p| == n && Elements(f, p)
  {
    FieldSize(f);
    if k == 0 then None(n)
    else
      if k > 1 then Pow2Monotone(k - 2, k - 1);
      Plus(f, TracePoly(f, n, k - 1), Mono(n, Pow2(k - 1), 1))
      else
      Plus(f, TracePoly(f, n, k - 1), Mono(n, Pow2(k - 1), 1))
  }

  lemma {:induction false} EvalTracePoly(f: Field, n: nat, k: nat, x: nat)
    requires f.Valid() && n > 0 && (k > 0 ==> Pow2(k - 1) < n) && x <= f.N()
    ensures Eval(f, TracePoly(f, n, k), x) == TraceTo(f, x, k)
  {
    if k == 0 {
      EvalNone(f, n, x);
    } else {
      if k > 1 { Pow2Monotone(k - 2, k - 1); }
      hide Field.Valid; hide Pow2; hide Xor; hide Eval; hide Frob;
      EvalTracePoly(f, n, k - 1, x);
      FieldSize(f);
      EvalMono(f, n, Pow2(k - 1), x);
      PowerFrob(f, x, k - 1);
      EvalPlus(f, TracePoly(f, n, k - 1), Mono(n, Pow2(k - 1), 1), x);
    }
  }

  /** Its coefficient of x is 1. */
  lemma {:induction false} TracePolyFirst(f: Field, n: nat, k: nat)
    requires f.Valid() && n > 1 && k > 0 && Pow2(k - 1) < n
    ensures TracePoly(f, n, k)[1] == 1
  {
    if k == 1 {
      XorZero(1);
    } else {
      Pow2Monotone(k - 2, k - 1);
      Pow2Monotone(1, k - 1);
      TracePolyFirst(f, n, k - 1);
      XorZero(1);
    }
  }

  /** The trace of a sum of bits. */
  lemma {:induction false} TraceOfBits(f: Field, x: nat)
    requires f.Valid() && x <= f.N() && forall k: nat | k < f.m :: A(f, k) <= f.N() && Trace(f, A(f, k)) == 0
    ensures Trace(f, x) == 0
    decreases x
  {
    hide Field.Valid; hide Pow2; hide Xor; hide Trace; hide A;
    if x == 0 {
      TraceXor(f, 0, 0); XorSelf(0); XorSelf(Trace(f, 0));
    } else {
      var i := Degree(x);
      DegreeInField(f, x);
      LeadingBit(x);
      AlphaBit(f, i);
      var y := Xor(x, Pow2(i));
      TraceOfBits(f, y);
      TraceXor(f, y, A(f, i));
      XorCancel(x, Pow2(i));
      XorZero(0);
    }
  }

  /** Some element has a trace, since the trace polynomial has fewer roots than there are elements. */
  lemma {:induction false} SomeElement(f: Field) returns (x: nat)
    requires f.Valid()
    ensures x <= f.N() && Trace(f, x) != 0
  {
    hide Field.Valid; hide Xor; hide Eval; hide TracePoly; hide TraceTo;
    FieldSizes(f);
    var n := Pow2(f.m - 1) + 1;
    var p := TracePoly(f, n, f.m);
    var rs := seq(n, i requires 0 <= i < n => i as nat);
    forall i | 0 <= i < n ensures rs[i] <= f.N() && Eval(f, p, rs[i]) == Trace(f, i) { EvalTracePoly(f, n, f.m, i); }
    TracePolyFirst(f, n, f.m);
    var i := SomeNonroot(f, p, rs);
    x := i;
  }

  lemma {:induction false} SomeNonroot(f: Field, p: seq<nat>, rs: seq<nat>) returns (i: nat)
    requires f.Valid() && Elements(f, p) && |rs| == |p| && Elements(f, rs) && p != None(|p|)
    requires forall i, j | 0 <= i < j < |rs| :: rs[i] != rs[j]
    ensures i < |rs| && Eval(f, p, rs[i]) != 0
  {
    hide Field.Valid; hide Eval; hide Pow2;
    if forall i | 0 <= i < |rs| :: Eval(f, p, rs[i]) == 0 {
      TooManyRoots(f, p, rs);
      assert false;
    }
    i :| i < |rs| && Eval(f, p, rs[i]) != 0;
  }

  lemma {:induction false} SomeTrace(f: Field) returns (k: nat)
    requires f.Valid()
    ensures k < f.m && A(f, k) <= f.N() && Trace(f, A(f, k)) != 0
  {
    hide Field.Valid; hide Xor; hide Trace; hide A; hide Pow2;
    forall i: nat ensures A(f, i) <= f.N() { AlphaMod(f, i); }
    var x := SomeElement(f);
    if forall k: nat | k < f.m :: Trace(f, A(f, k)) == 0 {
      TraceOfBits(f, x);
      assert false;
    }
    k :| k < f.m && Trace(f, A(f, k)) != 0;
  }

  lemma FieldSizes(f: Field)
    requires f.Valid()
    ensures f.m >= 2 && Pow2(f.m - 1) >= 2 && f.N() + 1 == Pow2(f.m) == 2 * Pow2(f.m - 1)
  {
    Pow2Monotone(1, f.m - 1);
  }

  // ----- every element of trace 0 is z^2 + z

  /** The values of z^2 + z at the even z below 2 k. */
  ghost function Values(f: Field, k: nat): (s: set<nat>)
    requires f.Valid() && (k > 0 ==> 2 * (k - 1) <= f.N())
  {
    if k == 0 then {} else Values(f, k - 1) + {Half(f, 2 * (k - 1))}
  }

  lemma {:induction false} ValueOf(f: Field, k: nat, v: nat) returns (i: nat)
    requires f.Valid() && (k > 0 ==> 2 * (k - 1) <= f.N()) && v in Values(f, k)
    ensures i < k && 2 * i <= f.N() && v == Half(f, 2 * i)
  {
    hide Field.Valid; hide Half; hide Pow2;
    if v == Half(f, 2 * (k - 1)) { i := k - 1; } else { i := ValueOf(f, k - 1, v); }
  }

  lemma {:induction false} ValuesSize(f: Field, k: nat)
    requires f.Valid() && (k > 0 ==> 2 * (k - 1) <= f.N())
    ensures |Values(f, k)| == k
  {
    hide Field.Valid; hide Half; hide Pow2;
    if k > 0 {
      ValuesSize(f, k - 1);
      var v := Half(f, 2 * (k - 1));
      if v in Values(f, k - 1) {
        var i := ValueOf(f, k - 1, v);
        HalfSame(f, 2 * i, 2 * (k - 1));
        EvensDiffer(i, k - 1);
      }
    }
  }

  lemma {:induction false} EvensDiffer(i: nat, j: nat)
    requires Xor(2 * i, 2 * j) < 2
    ensures i == j
  {
    XorCons(i, 0, j, 0);
    XorZeroEqual(i, j);
  }

  /** The elements of trace 0. */
  ghost function Kernel(f: Field): (s: set<nat>)
    requires f.Valid()
    ensures forall v: nat :: v in s <==> v <= f.N() && Trace(f, v) == 0
  {
    set v: nat | v <= f.N() && Trace(f, v) == 0
  }

  ghost function Moved(s: set<nat>, a: nat): (t: set<nat>)
    ensures forall v :: v in t <==> exists x :: x in s && v == Xor(x, a)
  {
    set x | x in s :: Xor(x, a)
  }

  lemma {:induction false} MovedSize(s: set<nat>, a: nat)
    ensures |Moved(s, a)| == |s|
    decreases s
  {
    hide Xor;
    if s == {} {
      assert Moved(s, a) == {};
    } else {
      var x :| x in s;
      MovedSize(s - {x}, a);
      assert Moved(s, a) == Moved(s - {x}, a) + {Xor(x, a)};
      if Xor(x, a) in Moved(s - {x}, a) {
        var y :| y in s - {x} && Xor(x, a) == Xor(y, a);
        XorCancel(x, a); XorCancel(y, a);
      }
    }
  }

  /** No more than half of the elements have trace 0. */
  lemma {:induction false} KernelSize(f: Field, ak: nat)
    requires f.Valid() && ak <= f.N() && Trace(f, ak) != 0
    ensures 2 * |Kernel(f)| <= f.N() + 1
  {
    hide Field.Valid; hide Xor; hide Trace; hide Pow2;
    var K := Kernel(f);
    var M := Moved(K, ak);
    MovedSize(K, ak);
    var all := UpTo(f.N()) + {0};
    forall v | v in M ensures v !in K && v in all {
      var x :| x in K && v == Xor(x, ak);
      TraceXor(f, x, ak);
      XorComm(Trace(f, x), Trace(f, ak)); XorZero(Trace(f, ak));
    }
    assert K + M <= all && K !! M;
    SubsetSize(K + M, all);
  }

  lemma SubsetSize(a: set<nat>, b: set<nat>)
    requires a <= b
    ensures |a| <= |b|
  {
    assert |b - a| == |b| - |a|;
  }

  /** An element of trace 0 is z^2 + z for some z. */
  lemma {:induction false} Reached(f: Field, v: nat, ak: nat) returns (z: nat)
    requires f.Valid() && ak <= f.N() && Trace(f, ak) != 0 && v <= f.N() && Trace(f, v) == 0
    ensures z <= f.N() && Half(f, z) == v
  {
    hide Field.Valid; hide Half; hide Trace; hide Pow2;
    FieldSizes(f);
    var k := Pow2(f.m - 1);
    var V, K := Values(f, k), Kernel(f);
    ValuesSize(f, k);
    KernelSize(f, ak);
    forall w | w in V ensures w in K {
      var i := ValueOf(f, k, w);
      TraceOfHalf(f, 2 * i);
    }
    SubsetSize(V, K);
    SubsetFull(V, K);
    var i := ValueOf(f, k, v);
    z := 2 * i;
  }

  // ----- the search

  /** The inner sum: the trace of alpha^i. */
  method TraceOfPower(f: Field, i: nat) returns (sum: nat)
    requires f.Valid() && i < f.m
    ensures A(f, i) <= f.N() && sum == Trace(f, A(f, i))
  {
    hide Field.Valid; hide Xor; hide Pow2; hide A; hide Frob; hide Field.APow;
    AlphaMod(f, i);
    sum := 0;
    var j := 0;
    while j < f.m
      invariant j <= f.m && sum == TraceTo(f, A(f, i), j)
    {
      FrobAlpha(f, i, j);
      AlphaMod(f, Pow2(j) * i);
      TimesComm(Pow2(j), i);
      sum := Xor(sum, f.APow(i * Pow2(j)));
      j := j + 1;
    }
  }

  lemma TimesComm(a: nat, b: nat)
    ensures a * b == b * a && a * b >= 0
  {
  }

  /** An element alpha^k whose trace is not 0; there always is one with k < m. */
  method FindTraced(f: Field) returns (ak: nat)
    requires f.Valid()
    ensures 0 < ak <= f.N() && Trace(f, ak) != 0
  {
    hide Field.Valid; hide Trace; hide Pow2; hide A;
    ghost var k := SomeTrace(f);
    ak := 0;
    var i := 0;
    while i < f.m
      invariant i <= f.m && ak == 0 && i <= k
    {
      var sum := TraceOfPower(f, i);
      if sum != 0 {
        PowerTable(f, i);
        AlphaMod(f, i);
        ak := f.pow[i];
        return;
      }
      i := i + 1;
    }
    assert false;
  }

  lemma PowerTable(f: Field, i: nat)
    requires f.Valid() && i < f.m
    ensures i < f.N() && i < |f.pow| && f.pow[i] == A(f, i)
  {
    BelowPow2(f.m);
  }

  lemma {:induction false} BelowPow2(m: nat)
    ensures m < Pow2(m) && (m >= 2 ==> m <= Pow2(m) - 1)
  {
    if m > 0 { BelowPow2(m - 1); }
  }

  /** The table entries found so far are right. */
  ghost predicate Right(f: Field, xi: seq<nat>, done: set<nat>, ak: nat) {
    && f.Valid() && |xi| == f.m && (forall r | r in done :: r < f.m)
    && (forall r | r in done :: xi[r] <= f.N() && HalfIs(f, xi[r], A(f, r), ak))
  }

  /** If y is a low power of alpha, its entry has been found. */
  ghost predicate Done(f: Field, y: nat, done: set<nat>) {
    forall r: nat | r < f.m && y == A(f, r) :: r in done
  }

  /** One of the two tries for an element x: y is z^2 + z at x, or that plus ak. */
  method TryEntry(f: Field, x: nat, y: nat, xi: array<nat>, seen: array<bool>, ghost done: set<nat>, ghost ak: nat)
    returns (found: bool, ghost done': set<nat>)
    requires f.Valid() && x <= f.N() && y <= f.N() && xi.Length == seen.Length == f.m && HalfIs(f, x, y, ak)
    requires Right(f, xi[..], done, ak) && forall r: nat | r < f.m :: seen[r] <==> r in done
    modifies xi, seen
    ensures Right(f, xi[..], done', ak) && (forall r: nat | r < f.m :: seen[r] <==> r in done') && Done(f, y, done')
    ensures done <= done' && |done'| == |done| + (if found then 1 else 0)
    ensures found <==> !Done(f, y, done)
  {
    hide Field.Valid; hide Xor; hide Pow2; hide A; hide HalfIs;
    LogsInRange(f, y, y);
    var r := f.log[y];
    LowPower(f, y);
    if y != 0 && r < f.m && !seen[r] {
      ghost var was := xi[..];
      xi[r] := x;
      seen[r] := true;
      found, done' := true, done + {r};
      assert forall q | q in done :: xi[..][q] == was[q];
    } else {
      found, done' := false, done;
    }
  }

  /** Which power of alpha an element is. */
  lemma {:induction false} LowPower(f: Field, y: nat)
    requires f.Valid() && y <= f.N()
    ensures y < |f.log|
    ensures y == 0 ==> forall r: nat :: y != A(f, r)
    ensures y != 0 ==> y == A(f, f.log[y]) && forall r: nat | r < f.m && y == A(f, r) :: r == f.log[y]
  {
    hide Pow2; hide A;
    LogKnown(f, y);
    forall r: nat ensures A(f, r) != 0 { AlphaMod(f, r); }
    if y != 0 {
      LogAlpha(f, y);
      forall r: nat | r < f.m && y == A(f, r) ensures r == f.log[y] {
        PowerTable(f, r);
        AlphaMod(f, r);
        ModSmall(r, f.N());
      }
    }
  }

  /** All entries that elements below x can give have been found; of an even element, the second only with the next. */
  ghost predicate Searched(f: Field, x: nat, ak: nat, done: set<nat>) {
    && f.Valid() && x <= f.N() + 1
    && (forall z: nat | z < x :: Done(f, Half(f, z), done))
    && (forall z: nat | z < x && (z % 2 == 1 || z + 1 < x) :: Done(f, Xor(Half(f, z), ak), done))
  }

  /** Both tries for the element x. */
  method TryElement(f: Field, x: nat, ak: nat, xi: array<nat>, seen: array<bool>, ghost done: set<nat>)
    returns (found: bool, ghost done': set<nat>)
    requires f.Valid() && x <= f.N() && ak <= f.N() && xi.Length == seen.Length == f.m && Searched(f, x, ak, done)
    requires Right(f, xi[..], done, ak) && forall r: nat | r < f.m :: seen[r] <==> r in done
    modifies xi, seen
    ensures Right(f, xi[..], done', ak) && (forall r: nat | r < f.m :: seen[r] <==> r in done') && Searched(f, x + 1, ak, done')
    ensures |done'| == |done| + (if found then 1 else 0)
  {
    hide Field.Valid; hide Xor; hide Pow2; hide A; hide Right; hide Done; hide HalfIs; hide Searched;
    var y := Xor(f.Sqr(x), x);
    HalfMeans(f, x);
    BothTries(f, x, y, ak);
    found, done' := TryEntry(f, x, y, xi, seen, done, ak);
    if found {
      SearchedFirst(f, x, ak, done, done');
      return;
    }
    y := Xor(y, ak);
    found, done' := TryEntry(f, x, y, xi, seen, done', ak);
    SearchedBoth(f, x, ak, done, done');
  }

  lemma {:induction false} BothTries(f: Field, x: nat, y: nat, ak: nat)
    requires f.Valid() && x <= f.N() && ak <= f.N() && y == Half(f, x)
    ensures y <= f.N() && Xor(y, ak) <= f.N() && HalfIs(f, x, y, ak) && HalfIs(f, x, Xor(y, ak), ak)
  {
    hide Field.Valid; hide Xor; hide Pow2; hide Half;
    ElemXor(f, y, ak);
    XorCancel(y, ak);
  }

  lemma DoneMore(f: Field, y: nat, done: set<nat>, more: set<nat>)
    requires Done(f, y, done) && done <= more
    ensures Done(f, y, more)
  {
    hide A;
  }

  /** The first try succeeded: then x is even, or its value had been seen before. */
  lemma {:induction false} SearchedFirst(f: Field, x: nat, ak: nat, done: set<nat>, more: set<nat>)
    requires f.Valid() && x <= f.N() && Searched(f, x, ak, done) && done <= more && Done(f, Half(f, x), more) && !Done(f, Half(f, x), done)
    ensures Searched(f, x + 1, ak, more)
  {
    hide Field.Valid; hide Xor; hide Pow2; hide A; hide Half; hide Done;
    assert x % 2 == 0 by {
      if x % 2 == 1 { PairValue(f, x); }
    }
    SearchedMore(f, x, ak, done, more);
  }

  lemma {:induction false} SearchedMore(f: Field, x: nat, ak: nat, done: set<nat>, more: set<nat>)
    requires f.Valid() && x <= f.N() && Searched(f, x, ak, done) && done <= more && Done(f, Half(f, x), more)
    requires x % 2 == 0 || Done(f, Xor(Half(f, x), ak), more)
    ensures Searched(f, x + 1, ak, more)
  {
    hide Field.Valid; hide Xor; hide Pow2; hide A; hide Half; hide Done;
    forall z: nat | z < x + 1 ensures Done(f, Half(f, z), more) {
      if z < x { DoneMore(f, Half(f, z), done, more); }
    }
    forall z: nat | z < x + 1 && (z % 2 == 1 || z + 1 < x + 1) ensures Done(f, Xor(Half(f, z), ak), more) {
      if z == x - 1 && z % 2 == 0 {
        PairValue(f, x);
      } else if z < x {
        DoneMore(f, Xor(Half(f, z), ak), done, more);
      }
    }
  }

  lemma {:induction false} SearchedBoth(f: Field, x: nat, ak: nat, done: set<nat>, more: set<nat>)
    requires f.Valid() && x <= f.N() && Searched(f, x, ak, done) && done <= more
    requires Done(f, Half(f, x), done) && Done(f, Xor(Half(f, x), ak), more)
    ensures Searched(f, x + 1, ak, more)
  {
    hide Field.Valid; hide Xor; hide Pow2; hide A; hide Half; hide Done; hide Searched;
    DoneMore(f, Half(f, x), done, more);
    SearchedMore(f, x, ak, done, more);
  }

  /** An odd element and the one before it have the same value. */
  lemma {:induction false} PairValue(f: Field, x: nat)
    requires f.Valid() && x <= f.N() && x % 2 == 1
    ensures Half(f, x - 1) == Half(f, x)
  {
    hide Xor; hide Pow2; hide Field.Valid; hide Half;
    OddXor(x);
    FieldSize(f);
    HalfXor(f, x - 1, 1);
    OneHasNone(f);
    XorZero(Half(f, x - 1));
  }

  lemma {:induction false} OddXor(x: nat)
    requires x % 2 == 1
    ensures x == Xor(x - 1, 1)
  {
    hide Xor;
    XorCons(x / 2, 0, 0, 1); XorZero(x / 2);
  }

  lemma {:induction false} OneHasNone(f: Field)
    requires f.Valid()
    ensures 1 <= f.N() && Half(f, 1) == 0
  {
    hide Field.Valid; hide Pow2; hide Field.Mul; hide Xor;
    FieldSize(f);
    SqrIsMul(f, 1); MulOne(f, 1);
    XorSelf(1);
  }

  lemma {:induction false} SearchedAll(f: Field, ak: nat, done: set<nat>, z: nat)
    requires Searched(f, f.N() + 1, ak, done) && z <= f.N()
    ensures f.Valid() && Done(f, Half(f, z), done) && Done(f, Xor(Half(f, z), ak), done)
  {
    hide Field.Valid; hide Xor; hide Half; hide Done;
    FieldSizes(f);
    EvenBelow(z, f.N() + 1, Pow2(f.m - 1));
  }

  lemma EvenBelow(z: nat, n: nat, h: nat)
    requires z < n == 2 * h
    ensures z % 2 == 1 || z + 1 < n
  {
  }

  /** When all elements have been tried, every entry is there. */
  lemma {:induction false} AllFound(f: Field, ak: nat, done: set<nat>, r: nat)
    requires f.Valid() && ak <= f.N() && Trace(f, ak) != 0 && Searched(f, f.N() + 1, ak, done) && r < f.m
    ensures r in done
  {
    hide Field.Valid; hide Xor; hide A; hide Half; hide Trace; hide Done;
    hide Searched; hide Pow2;
    AlphaMod(f, r);
    var v := A(f, r);
    TraceBinary(f, v); TraceBinary(f, ak);
    if Trace(f, v) == 0 {
      var z := Reached(f, v, ak);
      SearchedAll(f, ak, done, z);
      DoneMeans(f, v, done, r);
    } else {
      ElemXor(f, v, ak);
      TraceXor(f, v, ak);
      XorSelf(1);
      var z := Reached(f, Xor(v, ak), ak);
      SearchedAll(f, ak, done, z);
      XorCancel(v, ak);
      DoneMeans(f, v, done, r);
    }
  }

  lemma DoneMeans(f: Field, y: nat, done: set<nat>, r: nat)
    requires Done(f, y, done) && r < f.m && y == A(f, r)
    ensures r in done
  {
    hide A;
  }

  /** build_deg2_base: it succeeds for every field. */
  method BuildDeg2Base(f: Field) returns (ok: bool, xiTab: seq<nat>, ghost ak: nat)
    requires f.Valid()
    ensures ok && BaseOk(f, xiTab, ak)
  {
    hide Field.Valid; hide Xor; hide Pow2; hide A; hide HalfIs; hide Trace; hide Searched; hide Right;
    var a := FindTraced(f);
    ak := a;
    var xi := new nat[f.m](_ => 0);
    var seen := new bool[f.m](_ => false);
    var remaining := f.m;
    ghost var done: set<nat> := {};
    NoneSearched(f, a, xi[..]);
    var x := 0;
    while x <= f.N() && remaining > 0
      invariant x <= f.N() + 1 && xi.Length == seen.Length == f.m && remaining == f.m - |done|
      invariant Searched(f, x, a, done) && Right(f, xi[..], done, a) && forall r: nat | r < f.m :: seen[r] <==> r in done
      invariant fresh(xi) && fresh(seen)
      decreases f.N() + 1 - x
    {
      var found;
      found, done := TryElement(f, x, a, xi, seen, done);
      RightSize(f, xi[..], done, a);
      if found {
        remaining := remaining - 1;
      }
      x := x + 1;
    }
    ok := remaining == 0;
    xiTab := xi[..];
    TableFull(f, xiTab, done, a, x, remaining);
  }

  lemma NoneSearched(f: Field, ak: nat, xi: seq<nat>)
    requires f.Valid() && |xi| == f.m
    ensures Searched(f, 0, ak, {}) && Right(f, xi, {}, ak)
  {
  }

  lemma RightSize(f: Field, xi: seq<nat>, done: set<nat>, ak: nat)
    requires Right(f, xi, done, ak)
    ensures |done| <= f.m && (|done| == f.m ==> forall r: nat | r < f.m :: r in done)
  {
    hide Field.Valid; hide A; hide HalfIs;
    FirstsSize(f.m);
    SubsetSize(done, Firsts(f.m));
    if |done| == f.m { SubsetFull(done, Firsts(f.m)); }
  }

  ghost function Firsts(n: nat): (s: set<nat>)
    ensures forall x: nat :: x in s <==> x < n
  {
    if n == 0 then {} else Firsts(n - 1) + {n - 1}
  }

  lemma {:induction false} FirstsSize(n: nat)
    ensures |Firsts(n)| == n
  {
    if n > 0 { FirstsSize(n - 1); }
  }

  lemma {:induction false} TableFull(f: Field, xi: seq<nat>, done: set<nat>, ak: nat, x: nat, remaining: int)
    requires f.Valid() && ak <= f.N() && Trace(f, ak) != 0 && Right(f, xi, done, ak) && Searched(f, x, ak, done)
    requires remaining == f.m - |done| && (x == f.N() + 1 || remaining <= 0)
    ensures remaining == 0 && BaseOk(f, xi, ak)
  {
    hide Field.Valid; hide A; hide HalfIs; hide Trace; hide Searched; hide Pow2;
    RightSize(f, xi, done, ak);
    if x == f.N() + 1 {
      forall r: nat | r < f.m ensures r in done { AllFound(f, ak, done, r); }
    }
    FirstsSize(f.m);
    SubsetSize(Firsts(f.m), done);
  }
}
