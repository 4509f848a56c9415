/** GF(2^m) by logarithm tables: build_gf_tables, gf_mul, gf_sqr, gf_div, gf_inv, modulo, mod_s.

    An element is a number below 2^m, addition is exclusive or, and alpha (the number 2) is
    multiplied in by one Shift.  The tables list the powers of alpha and their logarithms.
 */
module GaloisField {
  import opened Bits
  import opened BinaryPoly

  /** alpha^i as the table builder reaches it: i shifts of 1. */
  function Alpha(m: nat, poly: nat, i: nat): nat {
    ShiftN(poly, m, i, 1)
  }

  function GroupOrder(m: nat): nat {
    Pow2(m) - 1
  }

  datatype Field = Field(m: nat, poly: nat, pow: seq<nat>, log: seq<nat>) {

    function N(): nat { GroupOrder(m) }

    ghost predicate Valid() {
      && m >= 2 && HasDegree(poly, m) && poly % 2 == 1
      && |pow| == |log| == N() + 1
      && (forall i | 0 <= i < N() :: pow[i] == Alpha(m, poly, i))
      && (forall i | 0 <= i < N() :: 0 < pow[i] <= N() && log[pow[i]] == i)
      && (forall x | 0 < x <= N() :: log[x] < N() && pow[log[x]] == x)
      && pow[N()] == 1 && Alpha(m, poly, N()) == 1 && log[0] == 0
    }

    /** mod_s: one conditional subtraction. */
    function ModS(v: nat): nat {
      if v < N() then v else v - N()
    }

    function Mul(a: nat, b: nat): (r: nat)
      requires Valid() && a <= N() && b <= N()
      ensures r <= N()
    {
      if a != 0 && b != 0 then pow[ModS(log[a] + log[b])] else 0
    }

    function Sqr(a: nat): (r: nat)
      requires Valid() && a <= N()
      ensures r <= N()
    {
      if a != 0 then pow[ModS(2 * log[a])] else 0
    }

    function Div(a: nat, b: nat): (r: nat)
      requires Valid() && a <= N() && b <= N()
      ensures r <= N()
    {
      if a != 0 then pow[ModS(log[a] + N() - log[b])] else 0
    }

    function Inv(a: nat): (r: nat)
      requires Valid() && a <= N()
      ensures r <= N()
    {
      pow[N() - log[a]]
    }

    /** a_pow: alpha to any power, through modulo. */
    function APow(i: nat): (r: nat)
      requires Valid()
      ensures r <= N()
    {
      pow[i % N()]
    }
  }

  // ----- modulo

  lemma FoldMod(v: nat, m: nat)
    requires m >= 1
    ensures 0 <= v / Pow2(m) && 0 <= v % Pow2(m)
    ensures v % Pow2(m) + v / Pow2(m) <= v
    ensures v == v % Pow2(m) + v / Pow2(m) + (v / Pow2(m)) * GroupOrder(m)
  {
    var p := Pow2(m);
    assert p >= 2;
    hide Pow2;
    DivMod(v, p);
    Fold(v, p, v / p, v % p);
  }

  lemma DivMod(v: nat, p: nat)
    requires p > 0
    ensures v / p >= 0 && v % p >= 0 && v == p * (v / p) + v % p
  {
  }

  lemma Fold(v: nat, p: nat, q: nat, r: nat)
    requires p >= 2 && v == p * q + r
    ensures r + q <= v && v == r + q + q * (p - 1)
  {
    assert p * q == q * (p - 1) + q;
  }

  /** The shift-and-add loop ends and leaves v mod (2^m - 1). */
  method Modulo(m: nat, v: nat) returns (r: nat)
    requires m >= 1
    ensures r == v % GroupOrder(m)
  {
    var n := GroupOrder(m);
    r := v;
    while r >= n
      invariant r % n == v % n
    {
      r := r - n;
      assert (r + n) % n == r % n by { ModAddMultiple(r, 1, n); }
      var p := Pow2(m);
      FoldMod(r, m);
      ModAddMultiple(r % p + r / p, r / p, n);
      r := r % p + r / p;
    }
    assert r % n == r by { ModSmall(r, n); }
  }

  lemma ModSmall(r: nat, n: nat)
    requires r < n
    ensures r % n == r
  {
  }

  // ----- the powers of alpha

  lemma {:induction false} AlphaBound(m: nat, poly: nat, i: nat)
    requires m >= 1 && HasDegree(poly, m)
    ensures Alpha(m, poly, i) < Pow2(m)
  {
    ShiftNBound(poly, m, i, 1);
  }

  lemma {:induction false} ShiftZero(g: nat, d: nat, k: nat)
    ensures ShiftN(g, d, k, 0) == 0
  {
    if k > 0 { ShiftZero(g, d, k - 1); }
  }

  lemma {:induction false} AlphaNonzero(m: nat, poly: nat, i: nat)
    requires m >= 1 && HasDegree(poly, m) && poly % 2 == 1
    ensures 0 < Alpha(m, poly, i) < Pow2(m)
  {
    AlphaBound(m, poly, i);
    if i > 0 {
      AlphaNonzero(m, poly, i - 1);
      if Alpha(m, poly, i) == 0 {
        ShiftZero(poly, m, 1);
        ShiftInjective(poly, m, Alpha(m, poly, i - 1), 0);
        assert false;
      }
    }
  }

  /** Equal powers i <= j mean that alpha^(j-i) is one. */
  lemma {:induction false} AlphaCancel(m: nat, poly: nat, i: nat, j: nat)
    requires m >= 1 && HasDegree(poly, m) && poly % 2 == 1
    requires i <= j && Alpha(m, poly, i) == Alpha(m, poly, j)
    ensures Alpha(m, poly, j - i) == 1
  {
    if i > 0 {
      AlphaBound(m, poly, i - 1); AlphaBound(m, poly, j - 1);
      ShiftInjective(poly, m, Alpha(m, poly, i - 1), Alpha(m, poly, j - 1));
      AlphaCancel(m, poly, i - 1, j - 1);
    }
  }

  /** What the table builder checks: alpha does not come back to 1 before round n. */
  ghost predicate NoEarlyOne(m: nat, poly: nat, k: nat) {
    forall i | 0 < i < k :: Alpha(m, poly, i) != 1
  }

  lemma {:induction false} AlphaDistinct(m: nat, poly: nat, i: nat, j: nat)
    requires m >= 1 && HasDegree(poly, m) && poly % 2 == 1
    requires NoEarlyOne(m, poly, GroupOrder(m)) && i < j < GroupOrder(m)
    ensures Alpha(m, poly, i) != Alpha(m, poly, j)
  {
    if Alpha(m, poly, i) == Alpha(m, poly, j) { AlphaCancel(m, poly, i, j); }
  }

  ghost function PowerSet(m: nat, poly: nat, k: nat): set<nat> {
    if k == 0 then {} else PowerSet(m, poly, k - 1) + {Alpha(m, poly, k - 1)}
  }

  lemma {:induction false} PowerSetMember(m: nat, poly: nat, k: nat, x: nat)
    requires x in PowerSet(m, poly, k)
    ensures exists i: nat :: i < k && Alpha(m, poly, i) == x
  {
    if k > 0 && x != Alpha(m, poly, k - 1) { PowerSetMember(m, poly, k - 1, x); }
  }

  lemma {:induction false} PowerSetSize(m: nat, poly: nat, k: nat)
    requires m >= 1 && HasDegree(poly, m) && poly % 2 == 1
    requires NoEarlyOne(m, poly, GroupOrder(m)) && k <= GroupOrder(m)
    ensures |PowerSet(m, poly, k)| == k
  {
    if k > 0 {
      PowerSetSize(m, poly, k - 1);
      if Alpha(m, poly, k - 1) in PowerSet(m, poly, k - 1) {
        PowerSetMember(m, poly, k - 1, Alpha(m, poly, k - 1));
        var i: nat :| i < k - 1 && Alpha(m, poly, i) == Alpha(m, poly, k - 1);
        AlphaDistinct(m, poly, i, k - 1);
      }
    }
  }

  ghost function UpTo(n: nat): (s: set<nat>)
    ensures |s| == n
    ensures forall x: nat :: x in s <==> 0 < x <= n
  {
    if n == 0 then {} else UpTo(n - 1) + {n}
  }

  lemma SubsetFull<T>(a: set<T>, b: set<T>)
    requires a <= b && |a| == |b|
    ensures a == b
  {
    assert |b - a| == |b| - |a|;
  }

  /** All nonzero elements are powers of alpha below n. */
  lemma {:induction false} PowersCover(m: nat, poly: nat, x: nat) returns (i: nat)
    requires m >= 1 && HasDegree(poly, m) && poly % 2 == 1
    requires NoEarlyOne(m, poly, GroupOrder(m)) && 0 < x < Pow2(m)
    ensures i < GroupOrder(m) && Alpha(m, poly, i) == x
  {
    var n := GroupOrder(m);
    var s := PowerSet(m, poly, n);
    forall y | y in s ensures y in UpTo(n) {
      PowerSetMember(m, poly, n, y);
      var j: nat :| j < n && Alpha(m, poly, j) == y;
      AlphaNonzero(m, poly, j);
    }
    PowerSetSize(m, poly, n);
    SubsetFull(s, UpTo(n));
    assert x in s;
    PowerSetMember(m, poly, n, x);
    i :| i < n && Alpha(m, poly, i) == x;
  }

  lemma {:induction false} AlphaReturns(m: nat, poly: nat)
    requires m >= 1 && HasDegree(poly, m) && poly % 2 == 1
    requires NoEarlyOne(m, poly, GroupOrder(m))
    ensures Alpha(m, poly, GroupOrder(m)) == 1
  {
    var n := GroupOrder(m);
    AlphaNonzero(m, poly, n);
    var i := PowersCover(m, poly, Alpha(m, poly, n));
    AlphaCancel(m, poly, i, n);
    if i > 0 { assert false; }
  }

  ghost predicate IsPower(m: nat, poly: nat, x: nat) {
    exists i: nat :: i < GroupOrder(m) && Alpha(m, poly, i) == x
  }

  /** The tables are a field's tables exactly when the polynomial has a constant term: without
      one the powers of alpha, although the builder accepts them, miss every odd number above 1. */
  lemma {:induction false} PowersCoverIffOdd(m: nat, poly: nat)
    requires m >= 2 && HasDegree(poly, m) && NoEarlyOne(m, poly, GroupOrder(m))
    ensures (forall x: nat | 0 < x < Pow2(m) :: IsPower(m, poly, x)) <==> poly % 2 == 1
  {
    if poly % 2 == 1 {
      forall x: nat | 0 < x < Pow2(m) ensures IsPower(m, poly, x) {
        var i := PowersCover(m, poly, x);
      }
    } else {
      forall i: nat | i < GroupOrder(m) ensures Alpha(m, poly, i) != 3 {
        EvenPolyEvenPowers(m, poly, i);
      }
      assert 3 < Pow2(m) by { Pow2Monotone(2, m); assert Pow2(2) == 4; }
      assert !IsPower(m, poly, 3);
    }
  }

  lemma {:induction false} EvenShift(g: nat, d: nat, x: nat, h: nat)
    requires g == 2 * h
    ensures Shift(g, d, x) % 2 == 0
  {
    hide Xor; hide TopBit;
    XorDouble(x, h);
  }

  lemma {:induction false} EvenPolyEvenPowers(m: nat, poly: nat, i: nat)
    requires poly % 2 == 0
    ensures i > 0 ==> Alpha(m, poly, i) % 2 == 0
  {
    if i > 0 {
      hide Alpha; hide Shift;
      AlphaNext(m, poly, i - 1);
      EvenShift(poly, m, Alpha(m, poly, i - 1), poly / 2);
    }
  }

  /** A polynomial the builder accepts although its powers form no field: x^5, m = 5. */
  lemma {:induction false} EvenPolyAccepted()
    ensures HasDegree(32, 5) && NoEarlyOne(5, 32, GroupOrder(5))
    ensures forall i: nat :: Alpha(5, 32, i) != 3
  {
    assert Pow2(5) == 32 && Pow2(6) == 64;
    forall i: nat ensures Alpha(5, 32, i) != 3 && (i > 0 ==> Alpha(5, 32, i) != 1) {
      EvenPolyEvenPowers(5, 32, i);
    }
  }

  // ----- the table builder

  /** The next power: a shift, and a subtraction of the polynomial when the top bit k appears. */
  method TimesAlpha(m: nat, poly: nat, k: nat, x: nat) returns (y: nat)
    requires m >= 1 && HasDegree(poly, m) && k == Pow2(m) && x < Pow2(m)
    ensures y == Shift(poly, m, x) && y < Pow2(m)
  {
    hide Xor;
    TopBitIsBit(m, x);
    ShiftBound(poly, m, x);
    y := 2 * x;
    if (y / k) % 2 == 1 {
      y := Xor(y, poly);
    }
  }

  lemma AlphaNext(m: nat, poly: nat, i: nat)
    ensures Alpha(m, poly, i + 1) == Shift(poly, m, Alpha(m, poly, i))
  {
  }

  lemma AlphaZero(m: nat, poly: nat)
    ensures Alpha(m, poly, 0) == 1
  {
  }

  /** build_gf_tables: the 0 / -1 result as ok, the two tables written in place. */
  method BuildTables(m: nat, poly: nat, powTab: array<nat>, logTab: array<nat>) returns (ok: bool)
    requires m >= 2 && poly > 0
    requires powTab != logTab && powTab.Length == logTab.Length == GroupOrder(m) + 1
    modifies powTab, logTab
    ensures ok <==> HasDegree(poly, m) && NoEarlyOne(m, poly, GroupOrder(m))
    ensures ok && poly % 2 == 1 ==> Field(m, poly, powTab[..], logTab[..]).Valid()
  {
    var n, x, i, k := GroupOrder(m), 1, 0, Pow2(Degree(poly));
    if k != Pow2(m) {
      if HasDegree(poly, m) { DegreeUnique(poly, m); }
      return false;
    }
    assert Degree(poly) == m by {
      if Degree(poly) < m { Pow2Strict(Degree(poly), m); } else if m < Degree(poly) { Pow2Strict(m, Degree(poly)); }
    }
    AlphaZero(m, poly);
    hide Alpha; hide Degree; hide HasDegree;
    while i < n
      invariant i <= n && x == Alpha(m, poly, i) && x < Pow2(m)
      invariant NoEarlyOne(m, poly, i)
      invariant forall j | 0 <= j < i :: powTab[j] == Alpha(m, poly, j) <= n
      invariant forall j | 0 <= j < i :: j <= logTab[powTab[j]] < i
      invariant forall j | 0 <= j < i :: powTab[logTab[powTab[j]]] == powTab[j]
    {
      powTab[i] := x;
      logTab[x] := i;
      if i > 0 && x == 1 {
        return false;
      }
      AlphaNext(m, poly, i);
      x := TimesAlpha(m, poly, k, x);
      i := i + 1;
    }
    powTab[n] := 1;
    logTab[0] := 0;
    if poly % 2 == 1 {
      BuiltTablesValid(m, poly, powTab, logTab);
    }
    return true;
  }

  lemma {:induction false} BuiltTablesValid(m: nat, poly: nat, powTab: array<nat>, logTab: array<nat>)
    requires m >= 2 && HasDegree(poly, m) && poly % 2 == 1 && NoEarlyOne(m, poly, GroupOrder(m))
    requires powTab.Length == logTab.Length == GroupOrder(m) + 1
    requires forall j | 0 <= j < GroupOrder(m) :: powTab[j] == Alpha(m, poly, j) <= GroupOrder(m)
    requires forall j | 0 <= j < GroupOrder(m) :: powTab[j] != 0 ==> j <= logTab[powTab[j]] < GroupOrder(m)
    requires forall j | 0 <= j < GroupOrder(m) :: powTab[j] != 0 ==> powTab[logTab[powTab[j]]] == powTab[j]
    requires powTab[GroupOrder(m)] == 1 && logTab[0] == 0
    ensures Field(m, poly, powTab[..], logTab[..]).Valid()
  {
    var n := GroupOrder(m);
    AlphaReturns(m, poly);
    forall j: nat | j < n ensures 0 < powTab[j] <= n && logTab[powTab[j]] == j {
      AlphaNonzero(m, poly, j);
      var l := logTab[powTab[j]];
      if j < l { AlphaDistinct(m, poly, j, l); }
    }
    forall x: nat | 0 < x <= n ensures logTab[x] < n && powTab[logTab[x]] == x {
      var i := PowersCover(m, poly, x);
      assert powTab[i] == x;
    }
  }
}
