/** Newton's identities in characteristic two: what the syndromes of a set of errors say about the polynomial
    that locates them.

    With T = 1 + S1 x + S2 x^2 + .. and the locator L of the errors, L T is the even part of L.
 */
module Newton {
  import opened Bits
  import opened GaloisField
  import opened FieldLaws
  import opened Generator
  import opened GfSeries

  // ----- even and odd parts

  ghost function Even(s: seq<nat>): (r: seq<nat>)
    ensures |r| == |s| && forall i | 0 <= i < |s| :: r[i] == if i % 2 == 0 then s[i] else 0
  {
    seq(|s|, i requires 0 <= i < |s| => if i % 2 == 0 then s[i] else 0)
  }

  ghost function Odd(s: seq<nat>): (r: seq<nat>)
    ensures |r| == |s| && forall i | 0 <= i < |s| :: r[i] == if i % 2 == 0 then 0 else s[i]
  {
    seq(|s|, i requires 0 <= i < |s| => if i % 2 == 0 then 0 else s[i])
  }

  lemma PartsElements(f: Field, s: seq<nat>)
    requires Elements(f, s)
    ensures Elements(f, Even(s)) && Elements(f, Odd(s))
  {
  }

  lemma {:induction false} EvenOdd(f: Field, s: seq<nat>)
    requires Elements(f, s)
    ensures Elements(f, Even(s)) && Elements(f, Odd(s))
    ensures Plus(f, Even(s), Odd(s)) == s && Plus(f, Even(s), s) == Odd(s)
  {
    hide Xor; hide Pow2;
    PartsElements(f, s);
    var a, b := Plus(f, Even(s), Odd(s)), Plus(f, Even(s), s);
    forall i | 0 <= i < |s| ensures a[i] == s[i] && b[i] == Odd(s)[i] { XorZero(s[i]); XorSelf(s[i]); }
  }

  lemma {:induction false} EvenPlus(f: Field, a: seq<nat>, b: seq<nat>)
    requires Elements(f, a) && Elements(f, b) && |a| == |b|
    ensures Elements(f, Even(a)) && Elements(f, Even(b)) && Even(Plus(f, a, b)) == Plus(f, Even(a), Even(b))
  {
    hide Xor; hide Pow2;
    PartsElements(f, a); PartsElements(f, b);
    XorZero(0);
  }

  lemma {:induction false} EvenScale(f: Field, c: nat, a: seq<nat>)
    requires f.Valid() && c <= f.N() && Elements(f, a)
    ensures Elements(f, Even(a)) && Even(Scale(f, c, a)) == Scale(f, c, Even(a))
  {
    hide Field.Mul; hide Field.Valid; hide Pow2;
    PartsElements(f, a);
    MulZero(f, c, 0);
  }

  lemma EvenUp(s: seq<nat>)
    requires s != []
    ensures Even(Up(s)) == Up(Odd(s))
  {
  }

  /** All coefficients at places of the other parity vanish. */
  ghost predicate OnlyPlaces(s: seq<nat>, b: nat) {
    forall i | 0 <= i < |s| && (i + b) % 2 == 1 :: s[i] == 0
  }

  lemma {:induction false} TimesParity(f: Field, p: seq<nat>, a: nat, s: seq<nat>, b: nat, m: nat)
    requires Series(f, s) && Elements(f, p) && OnlyPlaces(p, a) && OnlyPlaces(s, b) && m < |s| && (m + a + b) % 2 == 1
    ensures Times(f, p, s)[m] == 0
    decreases m
  {
    hide Times; hide Field.Valid; hide Pow2;
    if p == [] {
      TimesEmpty(f, s);
    } else {
      ParityHead(p, a, s, b, m);
      TimesAtZero(f, p, s, m);
      if m > 0 { TimesParity(f, p[1..], a + 1, s, b, m - 1); }
    }
  }

  lemma ParityHead(p: seq<nat>, a: nat, s: seq<nat>, b: nat, m: nat)
    requires OnlyPlaces(p, a) && OnlyPlaces(s, b) && p != [] && m < |s| && (m + a + b) % 2 == 1
    ensures (p[0] == 0 || s[m] == 0) && OnlyPlaces(p[1..], a + 1)
    ensures m > 0 ==> (m - 1 + (a + 1) + b) % 2 == 1
  {
    forall i | 0 <= i < |p[1..]| && (i + (a + 1)) % 2 == 1 ensures p[1..][i] == 0 {
      assert (i + 1 + a) % 2 == 1;
      assert p[i + 1] == 0;
    }
    if a % 2 == 0 { assert (m + b) % 2 == 1; } else { assert (0 + a) % 2 == 1; }
  }

  lemma PartsParity(s: seq<nat>)
    ensures OnlyPlaces(Even(s), 0) && OnlyPlaces(Odd(s), 1)
  {
  }

  // ----- squares

  /** c x^k among n coefficients. */
  ghost function Mono(n: nat, k: nat, c: nat): (r: seq<nat>)
    requires k < n
    ensures |r| == n && forall i | 0 <= i < n :: r[i] == if i == k then c else 0
  {
    seq(n, i => if i == k then c else 0)
  }

  lemma {:induction false} TimesMono(f: Field, n: nat, k: nat, c: nat, b: seq<nat>, m: nat)
    requires Series(f, b) && k < n && c <= f.N() && m < |b|
    ensures Elements(f, Mono(n, k, c))
    ensures Times(f, Mono(n, k, c), b)[m] == if m < k then 0 else f.Mul(c, b[m - k])
  {
    hide Times; hide Field.Valid; hide Pow2; hide Xor; hide Field.Mul;
    TimesShifted(f, [c], k, b, m);
    TimesAgree(f, Mono(n, k, c), None(k) + [c], b, m);
    if m >= k {
      TimesAt(f, [c], b, m - k);
      assert [c][1..] == [];
      TimesEmpty(f, b);
      XorZero(f.Mul(c, b[m - k]));
    }
  }

  /** The first k coefficients, the others zero. */
  ghost function Head(p: seq<nat>, k: nat): (r: seq<nat>)
    requires k <= |p|
    ensures |r| == |p| && forall i | 0 <= i < |p| :: r[i] == if i < k then p[i] else 0
  {
    seq(|p|, i requires 0 <= i < |p| => if i < k then p[i] else 0)
  }

  lemma {:induction false} HeadNext(f: Field, p: seq<nat>, k: nat)
    requires k < |p| && Elements(f, p)
    ensures Elements(f, Head(p, k)) && Elements(f, Mono(|p|, k, p[k]))
    ensures Head(p, k + 1) == Plus(f, Head(p, k), Mono(|p|, k, p[k]))
  {
    hide Xor; hide Pow2;
    var h, m := Head(p, k), Mono(|p|, k, p[k]);
    forall i | 0 <= i < |p| ensures Head(p, k + 1)[i] == Xor(h[i], m[i]) { XorZero(p[i]); XorZero(0); }
  }

  /** The square of a sum is the sum of the squares. */
  lemma {:induction false} SquarePlus(f: Field, a: seq<nat>, b: seq<nat>)
    requires Series(f, a) && Series(f, b) && |a| == |b|
    ensures var c := Plus(f, a, b); Times(f, c, c) == Plus(f, Times(f, a, a), Times(f, b, b))
  {
    hide Times; hide Plus; hide Field.Valid; hide Pow2;
    var c := Plus(f, a, b);
    PlusTimes(f, a, b, c);
    TimesPlus(f, a, a, b); TimesPlus(f, b, a, b);
    TimesComm(f, a, b);
    var aa, ab, bb := Times(f, a, a), Times(f, a, b), Times(f, b, b);
    PlusComm(f, ab, bb);
    PlusSwap(f, aa, ab, bb, ab);
    PlusNone(f, ab); PlusNone(f, Plus(f, aa, bb));
  }

  /** p^2 has the squares of p's coefficients at the even places. */
  ghost predicate SquareTo(f: Field, p: seq<nat>, k: nat)
    requires Series(f, p) && k <= |p| && Elements(f, Head(p, k))
  {
    forall m | 0 <= m < |p| :: Times(f, Head(p, k), Head(p, k))[m] == if m % 2 == 0 && m / 2 < k then f.Mul(p[m / 2], p[m / 2]) else 0
  }

  lemma {:induction false} SquareHead(f: Field, p: seq<nat>, k: nat)
    requires Series(f, p) && k <= |p|
    ensures Elements(f, Head(p, k)) && SquareTo(f, p, k)
  {
    hide Times; hide Field.Valid; hide Pow2; hide Xor; hide Field.Mul;
    if k == 0 {
      assert Head(p, 0) == None(|p|);
      TimesNothing(f, Head(p, 0), |p|);
    } else {
      SquareHead(f, p, k - 1);
      HeadNext(f, p, k - 1);
      var h, q := Head(p, k - 1), Mono(|p|, k - 1, p[k - 1]);
      SquarePlus(f, h, q);
      forall m | 0 <= m < |p|
        ensures Times(f, Head(p, k), Head(p, k))[m] == if m % 2 == 0 && m / 2 < k then f.Mul(p[m / 2], p[m / 2]) else 0
      {
        SquareMono(f, |p|, k - 1, p[k - 1], m);
        XorZero(f.Mul(p[k - 1], p[k - 1])); XorZero(Times(f, h, h)[m]);
      }
    }
  }

  lemma {:induction false} SquareMono(f: Field, n: nat, k: nat, c: nat, m: nat)
    requires f.Valid() && k < n && c <= f.N() && m < n
    ensures Elements(f, Mono(n, k, c)) && Times(f, Mono(n, k, c), Mono(n, k, c))[m] == if m == 2 * k then f.Mul(c, c) else 0
  {
    hide Times; hide Field.Valid; hide Pow2; hide Xor; hide Field.Mul;
    TimesMono(f, n, k, c, Mono(n, k, c), m);
    MulZero(f, c, 0);
  }

  /** T[0] is 1, and each T[2j] is the square of T[j]. */
  ghost predicate Squared(f: Field, T: seq<nat>) {
    Series(f, T) && T[0] == 1 && forall j: nat | 2 * j < |T| :: T[2 * j] == f.Mul(T[j], T[j])
  }

  lemma {:induction false} SquareOfT(f: Field, T: seq<nat>)
    requires Squared(f, T)
    ensures Elements(f, Even(T)) && Times(f, T, T) == Even(T)
  {
    hide Times; hide Field.Valid; hide Pow2; hide Field.Mul;
    PartsElements(f, T);
    SquareHead(f, T, |T|);
    assert Head(T, |T|) == T;
    forall m | 0 <= m < |T| ensures Times(f, T, T)[m] == Even(T)[m] {
      if m % 2 == 0 { assert 2 * (m / 2) == m; }
    }
  }

  // ----- the identities

  /** The odd coefficients of p T below w vanish. */
  ghost predicate OddVanish(f: Field, p: seq<nat>, T: seq<nat>, w: int)
    requires Series(f, T) && Elements(f, p)
  {
    forall j | 0 <= j < |T| && j < w && j % 2 == 1 :: Times(f, p, T)[j] == 0
  }

  /** Then its even coefficients up to w are those of p. */
  lemma {:induction false} EvenFollows(f: Field, p: seq<nat>, T: seq<nat>, w: int, m: nat)
    requires Squared(f, T) && Elements(f, p) && |p| == |T| && OddVanish(f, p, T, w) && m <= w && m < |T|
    ensures m % 2 == 0 ==> Times(f, p, T)[m] == p[m]
    ensures m < w && m % 2 == 1 ==> Times(f, p, T)[m] == Even(p)[m]
    decreases m
  {
    hide Times; hide Field.Valid; hide Pow2; hide Field.Mul; hide Xor; hide Plus; hide Squared; hide OddVanish;
    if m % 2 == 0 {
      SquaredSeries(f, T);
      PartsElements(f, p);
      var A := Times(f, p, T);
      var D := Plus(f, A, Even(p));
      forall j | 0 <= j < m ensures D[j] == 0 {
        OddAt(f, p, T, w, j);
        EvenFollows(f, p, T, w, j);
        DiffAt(f, A, Even(p), j);
      }
      TimesLow(f, T, D, m);
      MulOne(f, D[m]);
      EvenCancels(f, p, T, m);
      DiffAt(f, A, Even(p), m);
    } else if m < w {
      SquaredSeries(f, T);
      OddAt(f, p, T, w, m);
    }
  }

  lemma SquaredSeries(f: Field, T: seq<nat>)
    requires Squared(f, T)
    ensures Series(f, T) && f.Valid() && T[0] == 1
  {
  }

  lemma OddAt(f: Field, p: seq<nat>, T: seq<nat>, w: int, j: nat)
    requires Series(f, T) && Elements(f, p) && OddVanish(f, p, T, w) && j < |T| && j < w
    ensures j % 2 == 1 ==> Times(f, p, T)[j] == 0
  {
    hide Times;
  }

  lemma DiffAt(f: Field, a: seq<nat>, b: seq<nat>, j: nat)
    requires Elements(f, a) && Elements(f, b) && |a| == |b| && j < |a|
    ensures Plus(f, a, b)[j] == 0 <==> a[j] == b[j]
  {
    XorSelf(a[j]);
    if Xor(a[j], b[j]) == 0 { XorZeroEqual(a[j], b[j]); }
  }

  lemma {:induction false} EvenCancels(f: Field, p: seq<nat>, T: seq<nat>, m: nat)
    requires Squared(f, T) && Elements(f, p) && |p| == |T| && m < |T| && m % 2 == 0
    ensures Series(f, T) && Elements(f, Even(p)) && Times(f, T, Plus(f, Times(f, p, T), Even(p)))[m] == 0
  {
    hide Times; hide Field.Valid; hide Pow2; hide Field.Mul; hide Xor; hide Plus; hide Squared;
    SquaredSeries(f, T);
    PartsElements(f, p); PartsElements(f, T);
    var A := Times(f, p, T);
    TimesPlus(f, T, A, Even(p));
    TimesTimes(f, T, p, T);
    SquareOfT(f, T);
    EvenOfProducts(f, p, T, m);
    DiffAt(f, Times(f, T, A), Times(f, T, Even(p)), m);
  }

  /** At an even place only the even parts contribute. */
  lemma {:induction false} EvenOfProducts(f: Field, p: seq<nat>, T: seq<nat>, m: nat)
    requires Series(f, T) && Elements(f, p) && |p| == |T| && m < |T| && m % 2 == 0
    ensures Elements(f, Even(p)) && Elements(f, Even(T))
    ensures Times(f, p, Even(T))[m] == Times(f, T, Even(p))[m]
  {
    hide Times; hide Field.Valid; hide Pow2; hide Xor; hide Even; hide Odd;
    EvenOdd(f, p); EvenOdd(f, T);
    EvenOnly(f, p, Even(T), m);
    EvenOnly(f, T, Even(p), m);
    TimesComm(f, Even(p), Even(T));
  }

  lemma {:induction false} EvenOnly(f: Field, p: seq<nat>, s: seq<nat>, m: nat)
    requires Series(f, s) && Elements(f, p) && m < |s| && m % 2 == 0 && exists q :: s == Even(q)
    ensures Elements(f, Even(p)) && Times(f, p, s)[m] == Times(f, Even(p), s)[m]
  {
    hide Times; hide Field.Valid; hide Pow2; hide Xor;
    var q :| s == Even(q);
    EvenOdd(f, p);
    PlusTimes(f, Even(p), Odd(p), s);
    PartsParity(p); PartsParity(q);
    TimesParity(f, Odd(p), 1, s, 0, m);
    XorZero(Times(f, Even(p), s)[m]);
  }
}
