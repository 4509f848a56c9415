/** The methods of compute_generator_polynomial: marking the roots, multiplying the linear factors
    in place, and packing the coefficients into 32-bit words.
 */
module BchGenerator {
  import opened Bits
  import opened BinaryPoly
  import opened GaloisField
  import opened FieldLaws
  import opened Generator
  import opened BinaryEval
  import opened Words

  // ----- cyclotomic cosets

  ghost function DoubleN(n: nat, j: nat, r: nat): nat {
    if j == 0 then r else Double(n, DoubleN(n, j - 1, r))
  }

  /** r, 2r, 4r, .. : the first j members of the coset of r. */
  ghost function Coset(n: nat, r: nat, j: nat): (s: set<nat>)
    ensures |s| <= j
  {
    if j == 0 then {} else Coset(n, r, j - 1) + {DoubleN(n, j - 1, r)}
  }

  /** The cosets of 1, 3, .., 2t-1. */
  ghost function Cosets(n: nat, m: nat, t: nat): (s: set<nat>)
    ensures |s| <= m * t
  {
    if t == 0 then {}
    else assert m * t == m * (t - 1) + m; Cosets(n, m, t - 1) + Coset(n, 2 * t - 1, m)
  }

  /** d is r times 2^j reduced modulo n. */
  ghost predicate Reduced(n: nat, r: nat, j: nat, d: nat) {
    d < n && exists k: nat :: IsSum(r * Pow2(j), d, k, n)
  }

  ghost predicate IsSum(x: nat, d: nat, k: nat, n: nat) {
    x == d + k * n
  }

  lemma {:induction false} DoubleNIsProduct(n: nat, j: nat, r: nat)
    requires r < n
    ensures Reduced(n, r, j, DoubleN(n, j, r))
  {
    if j == 0 {
      assert IsSum(r * Pow2(0), r, 0, n);
    } else {
      DoubleNIsProduct(n, j - 1, r);
      var d := DoubleN(n, j - 1, r);
      var k: nat :| IsSum(r * Pow2(j - 1), d, k, n);
      assert r * Pow2(j) == 2 * (r * Pow2(j - 1));
      DoubleSum(r * Pow2(j - 1), d, k, n);
    }
  }

  lemma DoubleSum(x: nat, d: nat, k: nat, n: nat)
    requires IsSum(x, d, k, n) && d < n
    ensures Double(n, d) < n && exists k2: nat :: IsSum(2 * x, Double(n, d), k2, n)
  {
    if 2 * d < n {
      assert (2 * k) * n == 2 * (k * n);
      assert IsSum(2 * x, Double(n, d), 2 * k, n);
    } else {
      assert (2 * k + 1) * n == 2 * (k * n) + n;
      assert IsSum(2 * x, Double(n, d), 2 * k + 1, n);
    }
  }

  /** m doublings modulo 2^m - 1 come back to the start. */
  lemma {:induction false} DoubleNReturns(m: nat, r: nat)
    requires r < GroupOrder(m)
    ensures DoubleN(GroupOrder(m), m, r) == r
  {
    hide Pow2; hide DoubleN;
    var n := GroupOrder(m);
    DoubleNIsProduct(n, m, r);
    var d := DoubleN(n, m, r);
    var k: nat :| IsSum(r * Pow2(m), d, k, n);
    assert Pow2(m) == n + 1;
    assert r * (n + 1) == r * n + r;
    DivModUnique(r * n + r, r, r, n);
    DivModUnique(r * n + r, k, d, n);
  }

  lemma {:induction false} CosetMember(n: nat, r: nat, j: nat, x: nat)
    requires x in Coset(n, r, j)
    ensures exists i: nat :: i < j && x == DoubleN(n, i, r)
  {
    if x != DoubleN(n, j - 1, r) { CosetMember(n, r, j - 1, x); }
  }

  lemma {:induction false} CosetHas(n: nat, r: nat, j: nat, i: nat)
    requires i < j
    ensures DoubleN(n, i, r) in Coset(n, r, j)
  {
    if i < j - 1 { CosetHas(n, r, j - 1, i); }
  }

  lemma {:induction false} CosetClosed(m: nat, r: nat, x: nat)
    requires r < GroupOrder(m) && x in Coset(GroupOrder(m), r, m)
    ensures x < GroupOrder(m) && Double(GroupOrder(m), x) in Coset(GroupOrder(m), r, m)
  {
    var n := GroupOrder(m);
    CosetMember(n, r, m, x);
    var i: nat :| i < m && x == DoubleN(n, i, r);
    DoubleNIsProduct(n, i, r);
    if i + 1 < m {
      CosetHas(n, r, m, i + 1);
    } else {
      DoubleNReturns(m, r);
      CosetHas(n, r, m, 0);
    }
  }

  lemma {:induction false} CosetsClosed(m: nat, t: nat, x: nat)
    requires 2 * t <= GroupOrder(m) && x in Cosets(GroupOrder(m), m, t)
    ensures x < GroupOrder(m) && Double(GroupOrder(m), x) in Cosets(GroupOrder(m), m, t)
  {
    var n := GroupOrder(m);
    if x in Cosets(n, m, t - 1) {
      CosetsClosed(m, t - 1, x);
    } else {
      CosetClosed(m, 2 * t - 1, x);
    }
  }

  lemma {:induction false} CosetsHasOdd(n: nat, m: nat, t: nat, i: nat)
    requires m > 0 && i < t
    ensures 2 * i + 1 in Cosets(n, m, t)
  {
    if i < t - 1 { CosetsHasOdd(n, m, t - 1, i); } else { CosetHas(n, 2 * t - 1, m, 0); }
  }

  // ----- marking

  lemma CosetsNone(n: nat, m: nat)
    ensures Cosets(n, m, 0) == {}
  {
  }

  lemma CosetsNext(n: nat, m: nat, i: nat)
    ensures Cosets(n, m, i + 1) == Cosets(n, m, i) + Coset(n, 2 * i + 1, m)
  {
  }

  method MarkRoots(m: nat, t: nat, roots: array<bool>)
    requires roots.Length == GroupOrder(m) + 1 && 2 * t <= GroupOrder(m)
    modifies roots
    ensures forall x: nat | x < GroupOrder(m) :: roots[x] <==> x in Cosets(GroupOrder(m), m, t)
  {
    hide Pow2; hide Cosets; hide GroupOrder;
    var n := GroupOrder(m);
    CosetsNone(n, m);
    var i := 0;
    while i < roots.Length
      invariant i <= roots.Length && forall x | 0 <= x < i :: !roots[x]
    {
      roots[i] := false;
      i := i + 1;
    }
    i := 0;
    while i < t
      invariant i <= t
      invariant forall x: nat | x < n :: roots[x] <==> x in Cosets(n, m, i)
    {
      CosetsNext(n, m, i);
      MarkCoset(n, m, 2 * i + 1, roots, Cosets(n, m, i));
      i := i + 1;
    }
  }

  method MarkCoset(n: nat, m: nat, start: nat, roots: array<bool>, ghost before: set<nat>)
    requires start < n < roots.Length
    requires forall x: nat | x < n :: roots[x] <==> x in before
    modifies roots
    ensures forall x: nat | x < n :: roots[x] <==> x in before + Coset(n, start, m)
  {
    var j, r := 0, start;
    while j < m
      invariant j <= m && r == DoubleN(n, j, start) && r < n
      invariant forall x: nat | x < n :: roots[x] <==> x in before + Coset(n, start, j)
    {
      roots[r] := true;
      r := Double(n, r);
      j := j + 1;
    }
  }

  // ----- the product

  /** The marked exponents below k, in increasing order. */
  ghost function RootList(roots: seq<bool>, k: nat): (es: seq<nat>)
    requires k <= |roots|
  {
    if k == 0 then [] else if roots[k - 1] then RootList(roots, k - 1) + [k - 1] else RootList(roots, k - 1)
  }

  lemma {:induction false} RootListMembers(roots: seq<bool>, k: nat)
    requires k <= |roots|
    ensures Distinct(RootList(roots, k))
    ensures forall i | 0 <= i < |RootList(roots, k)| :: RootList(roots, k)[i] < k && roots[RootList(roots, k)[i]]
    ensures forall x: nat | x < k && roots[x] :: x in RootList(roots, k)
  {
    if k > 0 { RootListMembers(roots, k - 1); }
  }

  lemma {:induction false} DistinctSize(es: seq<nat>, s: set<nat>)
    requires Distinct(es) && forall i | 0 <= i < |es| :: es[i] in s
    ensures |es| <= |s|
  {
    if es != [] {
      var l := |es| - 1;
      DistinctSize(es[..l], s - {es[l]});
    }
  }

  lemma {:induction false} RootListSize(roots: seq<bool>, k: nat, s: set<nat>)
    requires k <= |roots| && forall x: nat | x < |roots| && roots[x] :: x in s
    ensures |RootList(roots, k)| <= |s|
  {
    RootListMembers(roots, k);
    DistinctSize(RootList(roots, k), s);
  }

  /** One factor: g becomes (x + r) g, coefficient by coefficient from the top. */
  method TimesRootInPlace(f: Field, c: array<nat>, deg: nat, r: nat)
    requires f.Valid() && r <= f.N() && deg + 1 < c.Length
    requires Elements(f, c[..deg + 1]) && c[deg] == 1
    modifies c
    ensures c[..deg + 2] == TimesRoot(f, old(c[..deg + 1]), r, 0)
    ensures forall i | deg + 2 <= i < c.Length :: c[i] == old(c[i])
  {
    hide Xor; hide Field.Mul; hide TimesRoot; hide Pow2; hide Field.Valid; hide GroupOrder;
    ghost var p := c[..deg + 1];
    FieldSize(f);
    c[deg + 1] := 1;
    var j := deg;
    assert forall i | 0 <= i <= deg :: c[i] == p[i];
    while j > 0
      invariant 0 <= j <= deg
      invariant forall i | 0 <= i <= j :: c[i] == p[i]
      invariant forall i | j < i <= deg :: c[i] == Xor(f.Mul(p[i], r), p[i - 1])
      invariant c[deg + 1] == 1
      invariant forall i | deg + 2 <= i < c.Length :: c[i] == old(c[i])
    {
      c[j] := Xor(f.Mul(c[j], r), c[j - 1]);
      j := j - 1;
    }
    c[0] := f.Mul(c[0], r);
    TimesRootCoefs(f, p, r, c[..deg + 2]);
  }

  lemma {:induction false} TimesRootCoefs(f: Field, p: seq<nat>, r: nat, q: seq<nat>)
    requires f.Valid() && Elements(f, p) && r <= f.N() && p != [] && p[|p| - 1] == 1
    requires |q| == |p| + 1 && q[|p|] == 1 && q[0] == f.Mul(p[0], r)
    requires forall i | 0 < i < |p| :: q[i] == Xor(f.Mul(p[i], r), p[i - 1])
    ensures q == TimesRoot(f, p, r, 0)
  {
    hide Xor; hide Field.Mul; hide Field.Valid; hide Pow2; hide TimesRoot;
    var u := TimesRoot(f, p, r, 0);
    forall j: nat | j < |q| ensures q[j] == u[j] {
      CoefTimesRoot(f, p, r, 0, j);
      assert u[j] == Coef(u, j);
      XorZero(f.Mul(p[0], r)); XorZero(1); MulZero(f, 0, r);
    }
  }

  /** g in c[0..deg]: the product over all marked exponents. */
  method MultiplyRoots(f: Field, t: nat, roots: array<bool>, c: array<nat>) returns (deg: nat)
    requires f.Valid() && roots.Length == f.N() + 1 && |Cosets(f.N(), f.m, t)| < c.Length
    requires forall x: nat | x < f.N() :: roots[x] <==> x in Cosets(f.N(), f.m, t)
    modifies c
    ensures deg < c.Length && deg == |RootList(roots[..f.N()], f.N())|
    ensures c[..deg + 1] == Product(f, RootList(roots[..f.N()], f.N()))
  {
    hide Cosets; hide Pow2; hide Product; hide Distinct; hide Field.Valid; hide RootList; hide TimesRoot; hide GroupOrder;
    var n := f.N();
    ghost var all := Cosets(n, f.m, t);
    ghost var rs := roots[..n];
    assert forall x: nat | x < |rs| && rs[x] :: x in all;
    deg := 0;
    c[0] := 1;
    var i := 0;
    ProductOne(f);
    NoRoots(rs);
    assert c[..1] == [1];
    while i < n
      invariant i <= n && deg == |RootList(rs, i)| < c.Length
      invariant c[..deg + 1] == Product(f, RootList(rs, i))
    {
      if roots[i] {
        RootListGrows(rs, i, all);
        NextRoot(f, c, deg, RootList(rs, i), i);
        deg := deg + 1;
      } else {
        RootListStays(rs, i);
      }
      i := i + 1;
    }
  }

  /** One more root. */
  method NextRoot(f: Field, c: array<nat>, deg: nat, ghost es: seq<nat>, i: nat)
    requires f.Valid() && i < f.N() && deg == |es| && deg + 1 < c.Length && c[..deg + 1] == Product(f, es)
    modifies c
    ensures c[..deg + 2] == Product(f, es + [i])
  {
    ProductNext(f, es, i);
    hide TimesRoot;
    assert c[deg] == c[..deg + 1][deg];
    PowerAt(f, i);
    TimesRootInPlace(f, c, deg, f.pow[i]);
  }

  lemma PowerAt(f: Field, i: nat)
    requires f.Valid() && i < f.N()
    ensures i < |f.pow| && f.pow[i] <= f.N()
  {
  }

  lemma RootListStays(rs: seq<bool>, i: nat)
    requires i < |rs| && !rs[i]
    ensures RootList(rs, i + 1) == RootList(rs, i)
  {
  }

  lemma NoRoots(rs: seq<bool>)
    ensures RootList(rs, 0) == []
  {
  }

  lemma ProductOne(f: Field)
    requires f.Valid()
    ensures Product(f, []) == [1]
  {
  }

  lemma {:induction false} RootListGrows(rs: seq<bool>, i: nat, s: set<nat>)
    requires i < |rs| && rs[i] && forall x: nat | x < |rs| && rs[x] :: x in s
    ensures RootList(rs, i + 1) == RootList(rs, i) + [i] && |RootList(rs, i)| + 1 <= |s|
  {
    RootListSize(rs, i + 1, s);
  }

  lemma {:induction false} ProductNext(f: Field, es: seq<nat>, i: nat)
    requires f.Valid() && i < f.N()
    ensures f.pow[i] <= f.N() && Product(f, es + [i]) == TimesRoot(f, Product(f, es), f.pow[i], 0)
  {
    hide Product; hide TimesRoot; hide Pow2;
    AlphaMod(f, i);
    ProductSnoc(f, es, i);
  }

  // ----- packing

  function WordCount(bits: nat): nat { (bits + 31) / 32 }

  lemma WordCountRange(d: nat)
    ensures d <= 32 * WordCount(d) < d + 32
  {
  }

  ghost function Zeros(k: nat): (z: seq<nat>)
    ensures |z| == k && ToBits(z) == 0
  {
    if k == 0 then [] else [0] + Zeros(k - 1)
  }

  /** The coefficients with zeros below them, filling whole words. */
  ghost function Padded(all: seq<nat>): (p: seq<nat>)
    requires all != []
    ensures |p| == 32 * WordCount(|all|)
  {
    Zeros(32 * WordCount(|all|) - |all|) + all
  }

  /** Coefficients to 32-bit words, leading coefficient in the top bit of word 0. */
  method PackWords(c: array<nat>, deg: nat) returns (g: array<nat>)
    requires deg < c.Length
    ensures fresh(g) && g.Length == WordCount(deg + 1) && IsWords(g[..])
    ensures Value(g[..]) == ToBits(c[..deg + 1]) * Pow2(32 * g.Length - (deg + 1))
  {
    hide PackedUpTo; hide WordCount; hide ToBits; hide Value; hide Zeros; hide Pow2;
    var n: int, i := deg + 1, 0;
    g := new nat[WordCount(deg + 1)];
    ghost var all := c[..deg + 1];
    PackBegins(all);
    assert g[..0] == [];
    while n > 0
      invariant i <= g.Length == WordCount(deg + 1) && 0 <= n <= deg + 1
      invariant PackedUpTo(all, g[..i], n)
      invariant all == c[..deg + 1]
    {
      var nbits := if n > 32 then 32 else n;
      var word := PackWord(c, n, nbits);
      ghost var done := g[..i];
      assert c[n - nbits..n] == all[n - nbits..n];
      PackRound(all, done, n, nbits, word);
      g[i] := word;
      assert g[..i + 1] == done + [word];
      i := i + 1;
      n := n - nbits;
    }
    PackEnds(all, g[..i]);
    assert g[..i] == g[..];
  }

  /** The words ws are packed, and n coefficients are left. */
  ghost predicate PackedUpTo(all: seq<nat>, ws: seq<nat>, n: nat) {
    && all != [] && IsWords(ws) && |ws| <= WordCount(|all|)
    && n == (if |ws| < WordCount(|all|) then |all| - 32 * |ws| else 0)
    && Value(ws) == ToBits(Padded(all)[32 * (WordCount(|all|) - |ws|)..])
  }

  lemma {:induction false} PackBegins(all: seq<nat>)
    requires all != []
    ensures PackedUpTo(all, [], |all|)
  {
    assert Padded(all)[32 * WordCount(|all|)..] == [];
    EmptyNumbers();
  }

  lemma {:induction false} PackRound(all: seq<nat>, ws: seq<nat>, n: nat, nbits: nat, word: nat)
    requires PackedUpTo(all, ws, n) && 0 < n <= |all| && nbits == (if n > 32 then 32 else n)
    requires word == ToBits(Zeros(32 - nbits) + all[n - nbits..n]) && word < WORD
    ensures |ws| < WordCount(|all|) && PackedUpTo(all, ws + [word], n - nbits)
  {
    hide ToBits; hide Value; hide Padded; hide Zeros; hide Pow2;
    var top := 32 * (WordCount(|all|) - |ws|);
    PaddedPiece(all, n, nbits, top);
    PackStep(Padded(all), Zeros(32 - nbits) + all[n - nbits..n], ws, word, top);
  }

  lemma {:induction false} PackEnds(all: seq<nat>, ws: seq<nat>)
    requires PackedUpTo(all, ws, 0)
    ensures |ws| == WordCount(|all|) && IsWords(ws) && Value(ws) == ToBits(all) * Pow2(32 * |ws| - |all|)
  {
    hide ToBits; hide Value; hide Padded; hide Pow2;
    assert Padded(all)[0..] == Padded(all);
    PaddedSize(all);
  }

  lemma PaddedSize(all: seq<nat>)
    requires all != []
    ensures |Padded(all)| == 32 * WordCount(|all|) && ToBits(Padded(all)) == ToBits(all) * Pow2(32 * WordCount(|all|) - |all|)
  {
    hide ToBits; hide Pow2; hide Zeros;
    PaddingScales(all, 32 * WordCount(|all|) - |all|);
  }

  /** The next word's coefficients, from the top. */
  lemma {:induction false} PaddedPiece(all: seq<nat>, n: nat, nbits: nat, top: nat)
    requires 0 < n <= |all| && nbits == (if n > 32 then 32 else n) && top == n + (32 * WordCount(|all|) - |all|) && top % 32 == 0
    ensures 32 <= top <= |Padded(all)| && Zeros(32 - nbits) + all[n - nbits..n] == Padded(all)[top - 32..top]
  {
    hide ToBits; hide Pow2;
    var k := 32 * WordCount(|all|) - |all|;
    var p := Padded(all);
    assert p == Zeros(k) + all;
    if n > 32 {
      assert Zeros(0) == [];
      assert p[top - 32..top] == all[n - 32..n];
    } else {
      assert k == 32 - n;
      assert p[0..32] == Zeros(k) + all[0..n];
    }
  }

  lemma EmptyNumbers()
    ensures ToBits([]) == 0 && Value([]) == 0
  {
  }

  lemma {:induction false} PackStep(p: seq<nat>, lo: seq<nat>, ws: seq<nat>, word: nat, k: nat)
    requires 32 <= k <= |p| && lo == p[k - 32..k]
    requires word == ToBits(lo) && Value(ws) == ToBits(p[k..])
    ensures Value(ws + [word]) == ToBits(p[k - 32..])
  {
    hide ToBits; hide Value; hide Pow2;
    assert p[k - 32..] == lo + p[k..];
    ToBitsAppend(lo, p[k..]);
    ValueSnoc(ws, word);
    Powers();
  }

  method PackWord(c: array<nat>, n: nat, nbits: nat) returns (word: nat)
    requires 0 < nbits <= n <= c.Length && nbits <= 32
    ensures word == ToBits(Zeros(32 - nbits) + c[n - nbits..n]) && word < WORD
  {
    hide ToBits; hide Pow2; hide Scaled; hide Or;
    word := 0;
    var j := 0;
    EmptyNumbers();
    assert c[n..n] == [];
    ScaledZero(32);
    while j < nbits
      invariant j <= nbits && word == Scaled(ToBits(c[n - j..n]), 32 - j)
    {
      PackBit(c[n - 1 - j..n], 31 - j);
      assert c[n - 1 - j..n][1..] == c[n - j..n];
      if c[n - 1 - j] != 0 {
        word := Or(word, Pow2(31 - j));
      }
      j := j + 1;
    }
    WordFits(c[n - nbits..n], nbits);
  }

  function Scaled(x: nat, k: nat): nat { x * Pow2(k) }

  lemma ScaledZero(k: nat)
    ensures Scaled(0, k) == 0
  {
  }

  lemma {:induction false} PackBit(c: seq<nat>, s: nat)
    requires c != []
    ensures Scaled(ToBits(c), s)
         == if c[0] != 0 then Or(Scaled(ToBits(c[1..]), s + 1), Pow2(s)) else Scaled(ToBits(c[1..]), s + 1)
  {
    var b, p := ToBits(c[1..]), Pow2(s);
    assert Pow2(s + 1) == 2 * p;
    hide Or; hide Pow2;
    OrDisjoint(b, p, s + 1);
    DoubleScale(b, p);
  }

  lemma PowOne()
    ensures Pow2(0) == 1 && Pow2(1) == 2
  {
  }

  lemma DoubleScale(b: nat, p: nat)
    ensures b * (2 * p) == (2 * b) * p && (2 * b + 1) * p == (2 * b) * p + p
  {
  }

  lemma {:induction false} WordFits(c: seq<nat>, nbits: nat)
    requires |c| == nbits <= 32
    ensures Scaled(ToBits(c), 32 - nbits) < WORD && Scaled(ToBits(c), 32 - nbits) == ToBits(Zeros(32 - nbits) + c)
  {
    hide ToBits; hide Scaled; hide Pow2;
    ToBitsBound(c);
    ScaledBound(ToBits(c), nbits);
    PaddingScales(c, 32 - nbits);
  }

  lemma {:induction false} ScaledBound(x: nat, nbits: nat)
    requires nbits <= 32 && x < Pow2(nbits)
    ensures Scaled(x, 32 - nbits) < WORD
  {
    hide Pow2;
    Powers(); Pow2Add(nbits, 32 - nbits);
    HighLowBound(x, Pow2(nbits), 0, Pow2(32 - nbits));
  }

  lemma {:induction false} PaddingScales(c: seq<nat>, k: nat)
    ensures ToBits(Zeros(k) + c) == Scaled(ToBits(c), k)
  {
    assert ToBits(Zeros(k)) == 0 && |Zeros(k)| == k;
    hide Pow2; hide ToBits; hide Zeros;
    ToBitsAppend(Zeros(k), c);
    Commute(Pow2(k), ToBits(c));
  }

  lemma Commute(a: nat, b: nat)
    ensures a * b == b * a
  {
  }

  // ----- what init_bch gets from compute_generator_polynomial

  /** The generator polynomial of the field f for t errors: g of degree d, vanishing at the odd
      powers of alpha below 2t. */
  ghost predicate IsGenerator(f: Field, t: nat, g: nat, d: nat) {
    && f.Valid() && HasDegree(g, d) && 0 < d <= f.m * t
    && (forall i: nat | i < t :: A(f, 2 * i + 1) <= f.N() && EvalBits(f, g, A(f, 2 * i + 1)) == 0)
    && exists es: seq<nat> :: |es| == d && CosetList(f, t, es)
  }

  /** Distinct exponents from the cosets of 1, 3, .., 2t-1. */
  ghost predicate CosetList(f: Field, t: nat, es: seq<nat>) {
    Distinct(es) && forall i | 0 <= i < |es| :: es[i] < f.N() && es[i] in Cosets(f.N(), f.m, t)
  }

  method ComputeGenerator(f: Field, t: nat) returns (genpoly: array<nat>, d: nat, ghost g: nat)
    requires f.Valid() && t > 0 && 2 * t <= f.N()
    ensures fresh(genpoly) && IsWords(genpoly[..]) && genpoly.Length == WordCount(d + 1)
    ensures Value(genpoly[..]) == g * Pow2(32 * genpoly.Length - (d + 1))
    ensures IsGenerator(f, t, g, d)
  {
    hide Product; hide ToBits; hide Value; hide Pow2; hide Cosets; hide Distinct; hide EvalBits;
    var c := new nat[f.m * t + 1];
    var roots := new bool[f.N() + 1];
    MarkRoots(f.m, t, roots);
    d := MultiplyRoots(f, t, roots, c);
    ghost var rs := roots[..f.N()];
    assert forall x: nat | x < f.N() :: rs[x] <==> x in Cosets(f.N(), f.m, t);
    RootListMembers(rs, f.N());
    GeneratorFacts(f, t, RootList(rs, f.N()));
    g := ToBits(c[..d + 1]);
    genpoly := PackWords(c, d);
  }

  lemma FieldDegree(f: Field)
    requires f.Valid()
    ensures f.m >= 2
  {
  }

  lemma {:induction false} GeneratorFacts(f: Field, t: nat, es: seq<nat>)
    requires f.Valid() && t > 0 && 2 * t <= f.N() && Distinct(es)
    requires forall i | 0 <= i < |es| :: es[i] in Cosets(f.N(), f.m, t)
    requires forall x: nat | x < f.N() && x in Cosets(f.N(), f.m, t) :: x in es
    requires |es| <= f.m * t
    ensures IsGenerator(f, t, ToBits(Product(f, es)), |es|)
  {
    hide Product; hide ToBits; hide Cosets; hide Field.Mul; hide A; hide Eval; hide EvalBits; hide Double; hide Distinct;
    hide Field.Valid;
    var n, g := f.N(), Product(f, es);
    forall i | 0 <= i < |es| ensures es[i] < n && Double(n, es[i]) in es {
      CosetsClosed(f.m, t, es[i]);
      CosetsClosed(f.m, t, Double(n, es[i]));
    }
    ProductBinary(f, es);
    ToBitsBound(g);
    FieldSize(f); FieldDegree(f);
    hide Pow2;
    forall i: nat | i < t ensures A(f, 2 * i + 1) <= n && EvalBits(f, ToBits(g), A(f, 2 * i + 1)) == 0 {
      CosetsHasOdd(n, f.m, t, i);
      assert 2 * i + 1 in es;
      var k :| 0 <= k < |es| && es[k] == 2 * i + 1;
      ProductRoot(f, es, k);
      EvalToBits(f, g, A(f, 2 * i + 1));
    }
    assert es != [] by { CosetsHasOdd(n, f.m, t, 0); }
    assert CosetList(f, t, es);
  }
}
