/** compute_error_locator_polynomial: the simplified Berlekamp-Massey iteration finds the locator of any set of at most t
    errors.
 */
module BchLocator {
  import opened Bits
  import opened GaloisField
  import opened FieldLaws
  import opened Generator
  import opened GfSeries
  import opened Newton
  import opened Locators

  /** 1 + S1 x + .. + S2t x^2t. */
  ghost function SynSeries(f: Field, syn: seq<nat>): (T: seq<nat>)
    requires f.Valid() && Elements(f, syn)
    ensures |T| == |syn| + 1 && Series(f, T) && T[0] == 1 && forall i | 0 <= i < |syn| :: T[i + 1] == syn[i]
  {
    FieldSize(f);
    [1] + syn
  }

  /** The syndromes are those of errors at the positions ps. */
  ghost predicate SyndromesOf(f: Field, syn: seq<nat>, ps: seq<nat>) {
    f.Valid() && Elements(f, syn) && Positions(f, ps) && 2 * |ps| <= |syn| && SynSeries(f, syn) == PowerSums(f, |syn| + 1, ps)
  }

  lemma LogBound(f: Field, x: nat)
    requires f.Valid() && x <= f.N()
    ensures |f.log| == f.N() + 1 && f.log[x] < f.N()
  {
    FieldSize(f);
  }

  // ----- one correction

  /** A product of a quotient through logarithms. */
  lemma {:induction false} ScaledTerm(f: Field, d: nat, pd: nat, c: nat)
    requires f.Valid() && 0 < d <= f.N() && 0 < pd <= f.N() && 0 < c <= f.N()
    ensures f.APow(f.log[d] + f.N() - f.log[pd] + f.log[c]) == f.Mul(f.Div(d, pd), c)
  {
    hide Field.APow; hide Pow2; hide A;
    LogBound(f, d); LogBound(f, pd); LogBound(f, c);
    var e := f.log[d] + f.N() - f.log[pd];
    ReducedLog(f, e);
    LogAlpha(f, c);
    AlphaMul(f, e, f.log[c]);
    AlphaMod(f, e + f.log[c]);
  }

  /** elp += (d / pd) x^k pelp, term by term through logarithms. */
  method AddScaled(f: Field, elp: array<nat>, pelp: array<nat>, pdeg: nat, k: nat, d: nat, pd: nat)
    requires f.Valid() && elp != pelp && 0 < d <= f.N() && 0 < pd <= f.N()
    requires pdeg < pelp.Length && pdeg + k < elp.Length
    requires Elements(f, elp[..]) && Elements(f, pelp[..])
    modifies elp
    ensures Elements(f, elp[..])
    ensures forall i | 0 <= i < elp.Length && !(k <= i <= pdeg + k) :: elp[i] == old(elp[i])
    ensures forall i | k <= i <= pdeg + k :: elp[i] == Xor(old(elp[i]), f.Mul(f.Div(d, pd), pelp[i - k]))
  {
    hide Field.Valid; hide Xor; hide Pow2; hide Field.APow; hide Field.Mul; hide Field.Div;
    LogBound(f, d); LogBound(f, pd);
    var tmp := f.log[d] + f.N() - f.log[pd];
    var j := 0;
    while j <= pdeg
      invariant j <= pdeg + 1
      invariant Elements(f, elp[..])
      invariant forall i | 0 <= i < elp.Length && !(k <= i < j + k) :: elp[i] == old(elp[i])
      invariant forall i | k <= i < j + k :: elp[i] == Xor(old(elp[i]), f.Mul(f.Div(d, pd), pelp[i - k]))
    {
      ghost var v := f.Mul(f.Div(d, pd), pelp[j]);
      ElemXor(f, elp[j + k], v);
      if pelp[j] != 0 {
        LogBound(f, pelp[j]);
        ScaledTerm(f, d, pd, pelp[j]);
        var l := f.log[pelp[j]];
        elp[j + k] := Xor(elp[j + k], f.APow(tmp + l));
      } else {
        MulZero(f, f.Div(d, pd), 0);
        XorZero(elp[j + k]);
      }
      j := j + 1;
    }
  }

  /** e + c x^k q. */
  ghost predicate Corrected(f: Field, e: seq<nat>, q: seq<nat>, k: nat, c: nat, r: seq<nat>) {
    && f.Valid() && Elements(f, e) && Elements(f, q) && Elements(f, r) && c <= f.N() && |e| == |q| == |r|
    && (forall i | 0 <= i < k && i < |e| :: r[i] == e[i])
    && (forall i | k <= i < |e| :: r[i] == Xor(e[i], f.Mul(c, q[i - k])))
  }

  /** q moved up by k places and cut off. */
  ghost function Raised(q: seq<nat>, k: nat): (r: seq<nat>)
    ensures |r| == |q| && forall i | 0 <= i < |q| :: r[i] == if i < k then 0 else q[i - k]
  {
    seq(|q|, i requires 0 <= i < |q| => if i < k then 0 else q[i - k])
  }

  lemma {:induction false} RaisedTimes(f: Field, q: seq<nat>, k: nat, T: seq<nat>, m: nat)
    requires Series(f, T) && Elements(f, q) && |q| == |T| && m < |T|
    ensures Elements(f, Raised(q, k)) && Times(f, Raised(q, k), T)[m] == if m < k then 0 else Times(f, q, T)[m - k]
  {
    hide Times; hide Field.Valid; hide Pow2;
    TimesShifted(f, q, k, T, m);
    TimesAgree(f, Raised(q, k), None(k) + q, T, m);
  }

  /** What a correction does to the products. */
  lemma {:induction false} CorrectedTimes(f: Field, e: seq<nat>, q: seq<nat>, k: nat, c: nat, r: seq<nat>, T: seq<nat>, m: nat)
    requires Series(f, T) && Corrected(f, e, q, k, c, r) && |e| == |T| && m < |T|
    ensures Times(f, r, T)[m] == Xor(Times(f, e, T)[m], if m < k then 0 else f.Mul(c, Times(f, q, T)[m - k]))
  {
    hide Times; hide Field.Valid; hide Pow2; hide Xor; hide Field.Mul;
    RaisedTimes(f, q, k, T, m);
    var y := Raised(q, k);
    MulZero(f, c, 0);
    var z := Plus(f, e, Scale(f, c, y));
    forall i | 0 <= i < |r| ensures r[i] == z[i] { XorZero(e[i]); }
    assert r == z;
    PlusTimes(f, e, Scale(f, c, y), T);
    ScaleTimes(f, c, y, T);
  }

  // ----- the iteration as values

  /** The last locator before the latest change of degree: its product goes wrong at pp + 1 by pd. */
  ghost predicate Previous(f: Field, T: seq<nat>, q: seq<nat>, pdeg: nat, pd: nat, pp: int) {
    && Series(f, T) && Elements(f, q) && |q| == |T| && Within(q, pdeg) && (pp == -1 || pp % 2 == 0) && -1 <= pp < |T| - 1
    && OddVanish(f, q, T, pp + 1) && Times(f, q, T)[pp + 1] == pd && 0 < pd <= f.N() && pdeg < |q| && q[pdeg] != 0
  }

  /** The locator after i rounds: the identities hold below 2i + 1. */
  ghost predicate Current(f: Field, T: seq<nat>, e: seq<nat>, deg: nat, i: nat) {
    && Series(f, T) && Elements(f, e) && |e| == |T| && Within(e, deg) && e[0] == 1 && OddVanish(f, e, T, 2 * i + 1)
    && deg < |e| && e[deg] != 0
  }

  /** The correction makes the identity hold at 2i + 1 too. */
  lemma {:induction false} RoundCorrects(f: Field, T: seq<nat>, e: seq<nat>, q: seq<nat>, deg: nat, pdeg: nat, pd: nat, pp: int, i: nat, d: nat, r: seq<nat>)
    requires Current(f, T, e, deg, i) && Previous(f, T, q, pdeg, pd, pp) && pp < 2 * i && 2 * i + 1 < |T| && deg + pdeg == pp + 1
    requires d == Times(f, e, T)[2 * i + 1] && 0 < d <= f.N() && Corrected(f, e, q, 2 * i - pp, f.Div(d, pd), r)
    ensures Current(f, T, r, if pdeg + (2 * i - pp) > deg then pdeg + (2 * i - pp) else deg, i + 1)
  {
    hide Times; hide Field.Valid; hide Pow2; hide Xor; hide Field.Mul; hide Field.Div;
    var k, c := 2 * i - pp, f.Div(d, pd);
    forall j | 0 <= j < |T| && j < 2 * (i + 1) + 1 && j % 2 == 1 ensures Times(f, r, T)[j] == 0 {
      CorrectedTimes(f, e, q, k, c, r, T, j);
      if j == 2 * i + 1 {
        DivMul(f, d, pd);
        XorSelf(d);
      } else {
        OddAt(f, e, T, 2 * i + 1, j);
        if j >= k { RoundEarlier(f, T, q, pdeg, pd, pp, i, j); }
        MulZero(f, c, 0); XorZero(0);
      }
    }
    var a := if pdeg + k > deg then pdeg + k else deg;
    forall j | 0 <= j < |r| && j > a ensures r[j] == 0 {
      MulZero(f, c, 0); XorZero(0);
      assert e[j] == 0 && (j >= k ==> q[j - k] == 0);
    }
    // the degrees add up to an odd number, so the leading coefficient is either kept or new
    assert pdeg + k != deg;
    DivZero(f, d, pd);
    if pdeg + k > deg {
      assert e[a] == 0 && r[a] == Xor(0, f.Mul(c, q[pdeg]));
      MulZero(f, c, q[pdeg]); XorZero(f.Mul(c, q[pdeg]));
    } else if deg >= k {
      assert q[deg - k] == 0;
      MulZero(f, c, 0); XorZero(e[deg]);
    }
  }

  lemma {:induction false} DivZero(f: Field, d: nat, pd: nat)
    requires f.Valid() && 0 < d <= f.N() && 0 < pd <= f.N()
    ensures f.Div(d, pd) != 0
  {
    hide Field.Valid; hide Pow2; hide Field.Mul; hide Field.Div;
    DivMul(f, d, pd);
    MulZero(f, 0, pd);
  }

  lemma RoundEarlier(f: Field, T: seq<nat>, q: seq<nat>, pdeg: nat, pd: nat, pp: int, i: nat, j: nat)
    requires Previous(f, T, q, pdeg, pd, pp) && pp < 2 * i && 2 * i - pp <= j < 2 * i + 1 && j % 2 == 1 && j < |T|
    ensures Times(f, q, T)[j - (2 * i - pp)] == 0
  {
    hide Times; hide Field.Valid; hide Pow2; hide Series; hide OddVanish;
    StaysOdd(j, i, pp);
    OddAt(f, q, T, pp + 1, j - (2 * i - pp));
  }

  lemma StaysOdd(j: int, i: int, pp: int)
    requires (pp == -1 || pp % 2 == 0) && 2 * i - pp <= j < 2 * i + 1 && j % 2 == 1
    ensures (j - (2 * i - pp)) % 2 == 1 && 0 <= j - (2 * i - pp) < pp + 1
  {
    assert pp != -1;
    var h := pp / 2;
    assert j - (2 * i - pp) == j + 2 * (h - i);
  }

  /** Without a discrepancy nothing has to be done. */
  lemma RoundHolds(f: Field, T: seq<nat>, e: seq<nat>, deg: nat, i: nat)
    requires Current(f, T, e, deg, i) && 2 * i + 1 < |T| && Times(f, e, T)[2 * i + 1] == 0
    ensures Current(f, T, e, deg, i + 1)
  {
    hide Times; hide Field.Valid; hide Pow2;
  }

  /** The degree never exceeds the number of errors. */
  lemma {:induction false} DegreeBound(f: Field, syn: seq<nat>, ps: seq<nat>, e: seq<nat>, deg: nat, i: nat)
    requires SyndromesOf(f, syn, ps) && Current(f, SynSeries(f, syn), e, deg, i) && 2 * i + 1 <= |syn|
    requires Times(f, e, SynSeries(f, syn))[2 * i + 1] != 0
    ensures 2 * i + 1 - deg <= |ps|
  {
    hide Times; hide Field.Valid; hide Pow2; hide PowerSums; hide Squared;
    PowerSumsSquared(f, |syn| + 1, ps);
    LengthBound(f, ps, SynSeries(f, syn), e, deg, 2 * i + 1);
  }

  /** After t rounds the locator is found. */
  lemma {:induction false} LocatorFound(f: Field, syn: seq<nat>, ps: seq<nat>, e: seq<nat>, deg: nat, t: nat)
    requires SyndromesOf(f, syn, ps) && |syn| == 2 * t && Current(f, SynSeries(f, syn), e, deg, t) && deg <= |ps|
    ensures e == Locator(f, |syn| + 1, ps) && deg == |ps|
  {
    hide Times; hide Field.Valid; hide Pow2; hide PowerSums; hide Squared; hide Locator;
    var n := |syn| + 1;
    PowerSumsSquared(f, n, ps);
    LocatorUnique(f, SynSeries(f, syn), ps, e);
    LocatorShape(f, n, ps);
  }

  /** What the iteration leaves for any syndromes when it does not give up. */
  ghost predicate LocatorLike(f: Field, syn: seq<nat>, e: seq<nat>, deg: nat) {
    && f.Valid() && Elements(f, syn) && Elements(f, e) && deg < |e| == |syn| + 1 && e[0] == 1 && e[deg] != 0 && Within(e, deg)
    && OddVanish(f, e, SynSeries(f, syn), |e|)
  }

  /** Syndromes whose even ones are squares. */
  lemma {:induction false} RootsExplain(f: Field, syn: seq<nat>, e: seq<nat>, ps: seq<nat>)
    requires LocatorLike(f, syn, e, |ps|) && Positions(f, ps) && 2 * |ps| <= |syn| && Squared(f, SynSeries(f, syn))
    requires forall i | 0 <= i < |ps| :: Eval(f, e, Inverse(f, ps[i])) == 0
    ensures SyndromesOf(f, syn, ps)
  {
    hide Field.Valid; hide Pow2; hide Eval; hide Inverse; hide Squared; hide OddVanish; hide PowerSums; hide Within;
    RootsTellSums(f, SynSeries(f, syn), ps, e);
  }

  // ----- the code

  /** The next discrepancy: syn[i] + sum of elp[j] syn[i - j], which is a coefficient of the product. */
  method Discrepancy(f: Field, elp: array<nat>, deg: nat, syn: seq<nat>, i: nat) returns (d: nat)
    requires f.Valid() && elp.Length == |syn| + 1 && deg <= i < |syn|
    requires Elements(f, elp[..]) && Elements(f, syn) && Within(elp[..], deg) && elp[0] == 1
    ensures d <= f.N() && d == Times(f, elp[..], SynSeries(f, syn))[i + 1]
  {
    hide Field.Valid; hide Xor; hide Pow2; hide Field.Mul; hide Times;
    ghost var e, T := elp[..], SynSeries(f, syn);
    d := syn[i];
    TimesAt(f, e, T, i + 1);
    MulOne(f, syn[i]);
    var j := 1;
    while j <= deg
      invariant 1 <= j <= deg + 1 && d <= f.N() && elp[..] == e
      invariant Elements(f, e[j..]) && Xor(d, Times(f, e[j..], T)[i + 1 - j]) == Times(f, e, T)[i + 1]
    {
      ghost var m := i + 1 - j;
      assert e[j..][1..] == e[j + 1..] && e[j..][0] == e[j] == elp[j];
      TimesAt(f, e[j..], T, m);
      assert T[m] == syn[i - j];
      ghost var v := f.Mul(elp[j], syn[i - j]);
      ElemXor(f, d, v);
      XorAssoc(d, v, Times(f, e[j + 1..], T)[m - 1]);
      d := Xor(d, f.Mul(elp[j], syn[i - j]));
      j := j + 1;
    }
    RestZero(f, e, deg, T, i - deg);
    XorZero(d);
  }

  lemma {:induction false} RestZero(f: Field, e: seq<nat>, deg: nat, T: seq<nat>, m: nat)
    requires Series(f, T) && Elements(f, e) && Within(e, deg) && deg < |e| && m < |T|
    ensures Elements(f, e[deg + 1..]) && Times(f, e[deg + 1..], T)[m] == 0
  {
    hide Field.Valid; hide Pow2; hide Times;
    TimesZeros(f, e[deg + 1..], T, m);
  }

  method CopyPoly(dst: array<nat>, src: array<nat>, deg: nat)
    requires dst != src && deg < src.Length <= dst.Length
    modifies dst
    ensures forall i | 0 <= i <= deg :: dst[i] == src[i]
    ensures forall i | deg < i < dst.Length :: dst[i] == old(dst[i])
  {
    forall i | 0 <= i <= deg { dst[i] := src[i]; }
  }

  method SetOne(c: array<nat>)
    requires c.Length > 0
    modifies c
    ensures c[..] == One(c.Length)
  {
    forall i | 0 <= i < c.Length { c[i] := 0; }
    c[0] := 1;
  }

  /** A nonzero discrepancy: correct elp by the previous locator, which elp's old value replaces
      when the degree grows. */
  method UpdateLocator(f: Field, elp: array<nat>, pelp: array<nat>, copy: array<nat>,
                       pdeg: nat, deg: nat, k: nat, d: nat, pd: nat) returns (longer: bool)
    requires f.Valid() && 0 < d <= f.N() && 0 < pd <= f.N()
    requires elp.Length == pelp.Length == copy.Length && elp != pelp && elp != copy && pelp != copy
    requires pdeg <= deg < elp.Length && pdeg + k < elp.Length
    requires Elements(f, elp[..]) && Elements(f, pelp[..]) && Within(elp[..], deg) && Within(pelp[..], pdeg)
    modifies elp, pelp, copy
    ensures Elements(f, elp[..])
    ensures longer <==> pdeg + k > deg
    ensures pelp[..] == if longer then old(elp[..]) else old(pelp[..])
    ensures Corrected(f, old(elp[..]), old(pelp[..]), k, f.Div(d, pd), elp[..])
  {
    hide Field.Valid; hide Xor; hide Pow2; hide Field.Mul; hide Field.Div;
    ghost var e, q := elp[..], pelp[..];
    CopyPoly(copy, elp, deg);
    AddScaled(f, elp, pelp, pdeg, k, d, pd);
    MulZero(f, f.Div(d, pd), 0);
    forall i | k <= i < elp.Length ensures elp[i] == Xor(e[i], f.Mul(f.Div(d, pd), q[i - k])) {
      XorZero(e[i]);
    }
    longer := pdeg + k > deg;
    if longer {
      CopyPoly(pelp, copy, deg);
    }
  }

  /** One round: the correction, if the discrepancy asks for one. */
  method Round(f: Field, syn: seq<nat>, elp: array<nat>, pelp: array<nat>, copy: array<nat>,
               pdeg0: nat, deg0: nat, d: nat, pd0: nat, pp0: int, i: nat) returns (pdeg: nat, deg: nat, pd: nat, pp: int)
    requires f.Valid() && Elements(f, syn) && 2 * i + 1 <= |syn| && elp.Length == pelp.Length == copy.Length == |syn| + 1
    requires elp != pelp && elp != copy && pelp != copy
    requires Current(f, SynSeries(f, syn), elp[..], deg0, i) && Previous(f, SynSeries(f, syn), pelp[..], pdeg0, pd0, pp0)
    requires d == Times(f, elp[..], SynSeries(f, syn))[2 * i + 1] && d <= f.N()
    requires deg0 + pdeg0 == pp0 + 1 && pp0 < 2 * i && pdeg0 <= deg0
    modifies elp, pelp, copy
    ensures Current(f, SynSeries(f, syn), elp[..], deg, i + 1) && Previous(f, SynSeries(f, syn), pelp[..], pdeg, pd, pp)
    ensures deg + pdeg == pp + 1 && pp < 2 * (i + 1) && pdeg <= deg
    ensures deg == deg0 || (d != 0 && deg == 2 * i + 1 - deg0)
  {
    hide Field.Valid; hide Xor; hide Pow2; hide Field.Mul; hide Field.Div; hide Times; hide Corrected;
    ghost var T, e, q := SynSeries(f, syn), elp[..], pelp[..];
    pdeg, deg, pd, pp := pdeg0, deg0, pd0, pp0;
    if d != 0 {
      var k := 2 * i - pp;
      var longer := UpdateLocator(f, elp, pelp, copy, pdeg, deg, k, d, pd);
      RoundCorrects(f, T, e, q, deg, pdeg, pd, pp, i, d, elp[..]);
      if longer {
        pdeg, deg, pd, pp := deg, pdeg + k, d, 2 * i;
      }
    } else {
      RoundHolds(f, T, e, deg, i);
    }
  }

  /** compute_error_locator_polynomial: for every syndrome vector it stays inside its buffers, and for the syndromes of at
      most t errors it returns their number and leaves their locator.
   */
  method ComputeErrorLocator(f: Field, t: nat, syn: seq<nat>, elp: array<nat>, pelp: array<nat>, copy: array<nat>)
    returns (err: int)
    requires f.Valid() && t > 0 && |syn| == 2 * t && Elements(f, syn)
    requires elp.Length == pelp.Length == copy.Length == 2 * t + 1
    requires elp != pelp && elp != copy && pelp != copy
    modifies elp, pelp, copy
    ensures -1 <= err <= t && Elements(f, elp[..]) && (err >= 0 ==> LocatorLike(f, syn, elp[..], err))
    ensures forall ps: seq<nat> | SyndromesOf(f, syn, ps) :: err == |ps| && elp[..] == Locator(f, 2 * t + 1, ps)
  {
    hide Field.Valid; hide Xor; hide Pow2; hide Field.Mul; hide Times; hide SyndromesOf; hide Locator;
    ghost var T := SynSeries(f, syn);
    FieldSize(f);
    SetOne(pelp);
    SetOne(elp);
    Start(f, T);
    var pdeg: nat, deg: nat, d: nat, pd: nat, pp: int, i := 0, 0, syn[0], 1, -1, 0;
    while i < t && deg <= t
      invariant 0 <= i <= t && d <= f.N() && deg + pdeg == pp + 1 && pp < 2 * i && pdeg <= deg
      invariant Current(f, T, elp[..], deg, i) && Previous(f, T, pelp[..], pdeg, pd, pp)
      invariant i < t ==> d == Times(f, elp[..], T)[2 * i + 1]
      invariant forall ps: seq<nat> | SyndromesOf(f, syn, ps) :: deg <= |ps|
    {
      forall ps: seq<nat> | SyndromesOf(f, syn, ps) && d != 0 ensures 2 * i + 1 - deg <= |ps| {
        DegreeBound(f, syn, ps, elp[..], deg, i);
      }
      pdeg, deg, pd, pp := Round(f, syn, elp, pelp, copy, pdeg, deg, d, pd, pp, i);
      if i < t - 1 {
        d := Discrepancy(f, elp, deg, syn, 2 * i + 2);
      }
      i := i + 1;
    }
    err := if deg > t then -1 else deg;
    forall ps: seq<nat> | SyndromesOf(f, syn, ps) ensures err == |ps| && elp[..] == Locator(f, 2 * t + 1, ps) {
      FewErrors(f, syn, ps);
      LocatorFound(f, syn, ps, elp[..], deg, t);
    }
  }

  lemma FewErrors(f: Field, syn: seq<nat>, ps: seq<nat>)
    requires SyndromesOf(f, syn, ps)
    ensures 2 * |ps| <= |syn|
  {
  }

  /** Before the first round both locators are 1. */
  lemma {:induction false} Start(f: Field, T: seq<nat>)
    requires Series(f, T) && T[0] == 1 && |T| > 1
    ensures Elements(f, One(|T|)) && Current(f, T, One(|T|), 0, 0) && Previous(f, T, One(|T|), 0, 1, -1)
    ensures Times(f, One(|T|), T)[1] == T[1]
  {
    hide Field.Valid; hide Pow2; hide Times;
    FieldSize(f);
    TimesOne(f, T);
    TimesComm(f, One(|T|), T);
  }
}
