/** gf_poly_logrep, gf_poly_mod and gf_poly_div: division of polynomials over GF(2^m) in place, the
    remainder in the low coefficients and the quotient left behind in the high ones.
 */
module GfPolyDivision {
  import opened Bits
  import opened GaloisField
  import opened FieldLaws
  import opened Generator

  /** b divided by its leading coefficient. */
  ghost function Monic(f: Field, b: seq<nat>): (p: seq<nat>)
    requires f.Valid() && b != [] && Elements(f, b)
    ensures |p| == |b| && Elements(f, p)
  {
    seq(|b|, i requires 0 <= i < |b| => f.Div(b[i], b[|b| - 1]))
  }

  lemma {:induction false} MonicLead(f: Field, b: seq<nat>)
    requires f.Valid() && b != [] && Elements(f, b) && b[|b| - 1] != 0
    ensures Monic(f, b)[|b| - 1] == 1
    ensures forall i | 0 <= i < |b| :: f.Mul(Monic(f, b)[i], b[|b| - 1]) == b[i]
  {
    hide Pow2;
    var x := b[|b| - 1];
    FieldSize(f);
    assert f.Mul(f.Div(x, x), x) == x by { DivMul(f, x, x); }
    MulOne(f, x);
    MulCancel(f, f.Div(x, x), 1, x);
    forall i | 0 <= i < |b| ensures f.Mul(Monic(f, b)[i], x) == b[i] { DivMul(f, b[i], x); }
  }

  /** The coefficient of x^t in (sum over i >= k of q[i] x^i) * b. */
  ghost function Conv(f: Field, q: seq<nat>, b: seq<nat>, k: nat, t: nat): (v: nat)
    requires f.Valid() && Elements(f, q) && Elements(f, b) && k <= |q|
    ensures v <= f.N()
    decreases |q| - k
  {
    if k == |q| then 0
    else
      ElemXor(f, f.Mul(q[k], Coef(b, t - k)), Conv(f, q, b, k + 1, t));
      Xor(f.Mul(q[k], Coef(b, t - k)), Conv(f, q, b, k + 1, t))
  }

  lemma {:induction false} ConvFrame(f: Field, q: seq<nat>, p: seq<nat>, b: seq<nat>, k: nat, t: nat)
    requires f.Valid() && Elements(f, q) && Elements(f, p) && Elements(f, b) && k <= |q| == |p|
    requires q[k..] == p[k..]
    ensures Conv(f, q, b, k, t) == Conv(f, p, b, k, t)
    decreases |q| - k
  {
    if k < |q| {
      assert q[k] == q[k..][0] && p[k] == p[k..][0];
      assert q[k + 1..] == q[k..][1..] && p[k + 1..] == p[k..][1..];
      ConvFrame(f, q, p, b, k + 1, t);
    }
  }

  /** a = rem + quo * b as polynomials, with rem below the degree of b. */
  ghost predicate IsDivision(f: Field, a: seq<nat>, b: seq<nat>, quo: seq<nat>, rem: seq<nat>) {
    && f.Valid() && Elements(f, a) && Elements(f, b) && Elements(f, quo) && Elements(f, rem)
    && |rem| + 1 == |b|
    && forall t | 0 <= t < |a| :: a[t] == Xor(Coef(rem, t), Conv(f, quo, b, 0, t))
  }

  // ----- the logarithmic representation of the divisor

  /** rep[i] is the logarithm of the i-th monic coefficient, or -1 for zero. */
  ghost predicate IsLogRep(f: Field, m: seq<nat>, rep: seq<int>) {
    && f.Valid() && Elements(f, m) && |m| == |rep| + 1
    && forall i | 0 <= i < |rep| :: rep[i] == if m[i] == 0 then -1 else f.log[m[i]]
  }

  lemma LogsInRange(f: Field, x: nat, y: nat)
    requires f.Valid() && x <= f.N() && y <= f.N()
    ensures f.N() > 0 && |f.log| == f.N() + 1 && f.log[x] < f.N() && f.log[y] < f.N()
  {
    FieldSize(f);
  }

  method LogRep(f: Field, b: array<nat>, deg: nat, rep: array<int>)
    requires f.Valid() && deg < b.Length && Elements(f, b[..deg + 1]) && rep.Length >= deg
    modifies rep
    ensures b[deg] != 0 ==> IsLogRep(f, Monic(f, b[..deg + 1]), rep[..deg])
    ensures forall i | 0 <= i < deg :: -1 <= rep[i]
  {
    hide Pow2;
    ghost var bs := b[..deg + 1];
    ghost var m := Monic(f, bs);
    assert b[deg] == bs[deg];
    var l := f.N() - f.log[b[deg]];
    var i := 0;
    while i < deg
      invariant i <= deg
      invariant forall k | 0 <= k < i :: -1 <= rep[k]
      invariant b[deg] != 0 ==> forall k | 0 <= k < i :: rep[k] == if m[k] == 0 then -1 else f.log[m[k]]
    {
      assert b[i] == bs[i];
      LogsInRange(f, b[i], b[deg]);
      if b[deg] != 0 { LogOfMonic(f, bs, i); }
      rep[i] := if b[i] != 0 then f.ModS(f.log[b[i]] + l) else -1;
      i := i + 1;
    }
  }

  lemma {:induction false} LogOfMonic(f: Field, b: seq<nat>, i: nat)
    requires f.Valid() && b != [] && Elements(f, b) && b[|b| - 1] != 0 && i < |b|
    ensures b[i] != 0 ==> 0 < Monic(f, b)[i] && f.log[Monic(f, b)[i]] == f.ModS(f.log[b[i]] + f.N() - f.log[b[|b| - 1]])
    ensures b[i] == 0 ==> Monic(f, b)[i] == 0
  {
    hide Pow2;
    var s := f.log[b[i]] + f.N() - f.log[b[|b| - 1]];
    if b[i] != 0 {
      FieldSize(f);
      assert f.ModS(s) < f.N();
      assert f.log[f.pow[f.ModS(s)]] == f.ModS(s);
    }
  }

  // ----- one quotient digit

  /** c[j - d ..] += c[j] * m below the leading term. */
  method SubtractScaled(f: Field, c: array<nat>, j: nat, ghost m: seq<nat>, rep: seq<int>)
    requires IsLogRep(f, m, rep) && |rep| <= j < c.Length && Elements(f, c[..]) && c[j] != 0
    modifies c
    ensures Elements(f, c[..])
    ensures forall t | 0 <= t < c.Length && !(j - |rep| <= t < j) :: c[t] == old(c[t])
    ensures forall t | j - |rep| <= t < j :: c[t] == Xor(old(c[t]), f.Mul(old(c[j]), m[t - (j - |rep|)]))
  {
    hide Xor; hide Pow2;
    var d := |rep|;
    ghost var was := c[..];
    var la := f.log[c[j]];
    var i, p := 0, j - d;
    while i < d
      invariant i <= d && p == j - d + i && Elements(f, c[..])
      invariant forall t | 0 <= t < c.Length && !(j - d <= t < p) :: c[t] == was[t]
      invariant forall t | j - d <= t < p :: c[t] == Xor(was[t], f.Mul(was[j], m[t - (j - d)]))
    {
      ghost var x := f.Mul(was[j], m[i]);
      ElemXor(f, c[p], x);
      if rep[i] >= 0 {
        c[p] := Xor(c[p], f.pow[f.ModS(rep[i] + la)]);
      } else {
        XorZero(c[p]);
      }
      i, p := i + 1, p + 1;
    }
  }

  /** What holds when the digits above j are done. */
  ghost predicate Divided(f: Field, a: seq<nat>, m: seq<nat>, c: seq<nat>, j: int) {
    && f.Valid() && Elements(f, a) && Elements(f, m) && Elements(f, c)
    && |a| == |c| && 1 <= |m| && |m| - 2 <= j < |a|
    && forall t: nat | t < |a| ::
         a[t] == Xor(if t <= j then c[t] else 0, Conv(f, c[|m| - 1..], m, j + 2 - |m|, t))
  }

  lemma {:induction false} DividedStep(f: Field, a: seq<nat>, m: seq<nat>, c: seq<nat>, c2: seq<nat>, j: nat)
    requires Divided(f, a, m, c, j) && |m| - 1 <= j && m[|m| - 1] == 1
    requires |c2| == |c| && Elements(f, c2)
    requires forall t | 0 <= t < |c| && !(j - (|m| - 1) <= t < j) :: c2[t] == c[t]
    requires forall t | j - (|m| - 1) <= t < j :: c2[t] == Xor(c[t], f.Mul(c[j], m[t - (j - (|m| - 1))]))
    ensures Divided(f, a, m, c2, j - 1)
  {
    hide Xor; hide Pow2; hide Field.Mul; hide Field.Valid;
    var d := |m| - 1;
    var k := j - d;
    var q, q2 := c[d..], c2[d..];
    forall t: nat | t < |a| ensures a[t] == Xor(if t <= j - 1 then c2[t] else 0, Conv(f, q2, m, k, t)) {
      assert q[k + 1..] == q2[k + 1..];
      ConvFrame(f, q, q2, m, k + 1, t);
      var rest := Conv(f, q, m, k + 1, t);
      assert Conv(f, q2, m, k, t) == Xor(f.Mul(q2[k], Coef(m, t - k)), rest);
      assert q2[k] == c[j];
      var x := f.Mul(c[j], Coef(m, t - k));
      MulZero(f, c[j], 0); MulOne(f, c[j]);
      if t <= j - 1 {
        if k <= t {
          assert c2[t] == Xor(c[t], x);
        } else {
          XorZero(c[t]);
        }
        assert c2[t] == Xor(c[t], x);
        XorMoveIn(c[t], x, rest);
      } else {
        XorZero(x); XorZero(rest); XorZero(Xor(x, rest));
      }
    }
  }

  lemma {:induction false} XorMoveIn(a: nat, x: nat, r: nat)
    ensures Xor(Xor(a, x), Xor(x, r)) == Xor(a, r)
  {
    hide Xor;
    XorAssoc(a, x, Xor(x, r));
    XorCancel(r, x);
  }

  // ----- the division

  /** gf_poly_mod for a of degree adeg and b of positive degree d, given b's logarithms; a lower degree is left alone. */
  method Mod(f: Field, c: array<nat>, adeg: nat, ghost b: seq<nat>, rep: seq<int>) returns (deg: nat)
    requires f.Valid() && b != [] && Elements(f, b) && b[|b| - 1] != 0 && IsLogRep(f, Monic(f, b), rep)
    requires 0 < |rep| && adeg < c.Length && Elements(f, c[..])
    modifies c
    ensures Elements(f, c[..])
    ensures adeg < |rep| ==> deg == adeg && c[..] == old(c[..])
    ensures adeg >= |rep| ==>
      && IsDivision(f, old(c[..adeg + 1]), Monic(f, b), c[|rep|..adeg + 1], c[..|rep|])
      && deg < |rep| && (deg > 0 ==> c[deg] != 0) && forall i | deg < i < |rep| :: c[i] == 0
    ensures forall i | adeg < i < c.Length :: c[i] == old(c[i])
  {
    hide Xor; hide Pow2; hide Field.Mul; hide Field.Valid; hide Monic; hide Divided; hide IsLogRep;
    var d := |rep|;
    if adeg < d {
      return adeg;
    }
    ghost var a, m := c[..adeg + 1], Monic(f, b);
    MonicLead(f, b);
    assert |m| == d + 1 by { LogRepLength(f, m, rep); }
    DividedStart(f, a, m);
    var j := adeg;
    while j >= d
      invariant d - 1 <= j <= adeg && Elements(f, c[..])
      invariant Divided(f, a, m, c[..adeg + 1], j)
      invariant forall i | adeg < i < c.Length :: c[i] == old(c[i])
    {
      ghost var was := c[..adeg + 1];
      if c[j] != 0 {
        SubtractScaled(f, c, j, m, rep);
      } else {
        ZeroDigit(f, was, m, j);
      }
      DividedStep(f, a, m, was, c[..adeg + 1], j);
      j := j - 1;
    }
    DividedEnd(f, a, m, c[..adeg + 1]);
    assert c[..adeg + 1][d..] == c[d..adeg + 1] && c[..adeg + 1][..d] == c[..d];
    deg := d - 1;
    while c[deg] == 0 && deg > 0
      invariant deg < d && forall i | deg < i < d :: c[i] == 0
    {
      deg := deg - 1;
    }
  }

  lemma LogRepLength(f: Field, m: seq<nat>, rep: seq<int>)
    requires IsLogRep(f, m, rep)
    ensures |m| == |rep| + 1
  {
  }

  lemma {:induction false} DividedStart(f: Field, a: seq<nat>, m: seq<nat>)
    requires f.Valid() && Elements(f, a) && Elements(f, m) && 2 <= |m| <= |a|
    ensures Divided(f, a, m, a, |a| - 1)
  {
    hide Xor; hide Pow2; hide Field.Mul; hide Field.Valid;
    forall t: nat | t < |a| ensures a[t] == Xor(a[t], Conv(f, a[|m| - 1..], m, |a| - 1 + 2 - |m|, t)) {
      XorZero(a[t]);
    }
  }

  lemma {:induction false} ZeroDigit(f: Field, c: seq<nat>, m: seq<nat>, j: nat)
    requires f.Valid() && Elements(f, c) && Elements(f, m) && 1 <= |m| <= j + 1 <= |c| && c[j] == 0
    ensures forall t | j - (|m| - 1) <= t < j :: c[t] == Xor(c[t], f.Mul(c[j], m[t - (j - (|m| - 1))]))
  {
    hide Xor; hide Pow2; hide Field.Mul; hide Field.Valid;
    forall t | j - (|m| - 1) <= t < j ensures c[t] == Xor(c[t], f.Mul(c[j], m[t - (j - (|m| - 1))])) {
      MulZero(f, 0, m[t - (j - (|m| - 1))]);
      XorZero(c[t]);
    }
  }

  lemma {:induction false} DividedEnd(f: Field, a: seq<nat>, m: seq<nat>, c: seq<nat>)
    requires |m| >= 2 && Divided(f, a, m, c, |m| - 2)
    ensures |m| - 1 <= |c| && IsDivision(f, a, m, c[|m| - 1..], c[..|m| - 1])
  {
    hide Xor; hide Pow2; hide Field.Mul; hide Field.Valid; hide Conv;
    var d := |m| - 1;
    forall t: nat | t < |a| ensures a[t] == Xor(Coef(c[..d], t), Conv(f, c[d..], m, 0, t)) {
    }
  }

  /** gf_poly_div: a is left as the remainder, the quotient is returned with its degree. */
  method Div(f: Field, a: array<nat>, adeg: nat, b: array<nat>, bdeg: nat) returns (q: seq<nat>, rdeg: nat)
    requires f.Valid() && a != b && adeg < a.Length && bdeg < b.Length && bdeg > 0
    requires Elements(f, a[..]) && Elements(f, b[..bdeg + 1]) && b[bdeg] != 0
    modifies a
    ensures adeg >= bdeg ==>
              && IsDivision(f, old(a[..adeg + 1]), Monic(f, old(b[..bdeg + 1])), q, a[..bdeg])
              && |q| == adeg - bdeg + 1 && rdeg < bdeg
    ensures adeg < bdeg ==> q == [0] && rdeg == adeg && a[..] == old(a[..])
  {
    hide Pow2; hide Field.Valid; hide IsDivision;
    if adeg >= bdeg {
      var rep := new int[bdeg];
      LogRep(f, b, bdeg, rep);
      assert b[..bdeg + 1][bdeg] == b[bdeg];
      assert rep[..bdeg] == rep[..];
      rdeg := Mod(f, a, adeg, b[..bdeg + 1], rep[..]);
      q := a[bdeg..adeg + 1];
    } else {
      q := [0];
      rdeg := adeg;
    }
  }
}
