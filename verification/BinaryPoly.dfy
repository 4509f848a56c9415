/** Polynomials over GF(2), one natural number each, and division by a polynomial g of degree d.

    Reduce is the simple form: it feeds the dividend one bit at a time into a shift register.
    Division and RemainderUnique show that it is the remainder of polynomial division.
 */
module BinaryPoly {
  import opened Bits

  predicate HasDegree(g: nat, d: nat) {
    Pow2(d) <= g < Pow2(d + 1)
  }

  /** The bit that leaves a d-bit register (x < 2^d) when it is shifted left by one. */
  function TopBit(d: nat, x: nat): (t: nat)
    ensures t < 2
  {
    if 2 * x >= Pow2(d) then 1 else 0
  }

  /** Multiplies a d-bit register by x and reduces by g. */
  function Shift(g: nat, d: nat, x: nat): nat {
    if TopBit(d, x) == 1 then Xor(2 * x, g) else 2 * x
  }

  function ShiftN(g: nat, d: nat, k: nat, x: nat): nat {
    if k == 0 then x else Shift(g, d, ShiftN(g, d, k - 1, x))
  }

  /** Bit-at-a-time remainder of v modulo g, most significant bit first. */
  function Reduce(g: nat, d: nat, v: nat): nat {
    if v == 0 then 0 else Xor(Shift(g, d, Reduce(g, d, v / 2)), v % 2)
  }

  /** The quotient bits that leave the register during Reduce. */
  function Quotient(g: nat, d: nat, v: nat): nat {
    if v == 0 then 0 else 2 * Quotient(g, d, v / 2) + TopBit(d, Reduce(g, d, v / 2))
  }

  /** Carry-less product. */
  function ClMul(a: nat, b: nat): nat {
    if a == 0 then 0 else Xor(if a % 2 == 1 then b else 0, 2 * ClMul(a / 2, b))
  }

  // ----- one register step

  /** TopBit is bit d of the doubled register, the bit the C code tests. */
  lemma TopBitIsBit(d: nat, x: nat)
    requires x < Pow2(d)
    ensures TopBit(d, x) == (2 * x / Pow2(d)) % 2
  {
    SmallQuotient(2 * x, Pow2(d));
  }

  lemma {:induction false} TopBitXor(d: nat, x: nat, y: nat)
    requires x < Pow2(d) && y < Pow2(d)
    ensures Xor(x, y) < Pow2(d)
    ensures TopBit(d, Xor(x, y)) == (TopBit(d, x) + TopBit(d, y)) % 2
  {
    hide Xor;
    var p := Pow2(d);
    XorBound(x, y, d);
    XorDouble(x, y);
    var t, u := TopBit(d, x), TopBit(d, y);
    XorBits(t, u);
    var b, c := 2 * x - (if t == 1 then p else 0), 2 * y - (if u == 1 then p else 0);
    assert 2 * x == t * p + b && 2 * y == u * p + c;
    XorSplit(t, b, u, c, d);
    if t == u { assert Xor(t, u) * p == 0; } else { assert Xor(t, u) * p == p; }
  }

  lemma {:induction false} ShiftBound(g: nat, d: nat, x: nat)
    requires HasDegree(g, d) && x < Pow2(d)
    ensures Shift(g, d, x) < Pow2(d)
  {
    hide Xor;
    var p := Pow2(d);
    XorBits(1, 1);
    if 2 * x >= p {
      assert 2 * x == 1 * p + (2 * x - p) && g == 1 * p + (g - p);
      XorSplit(1, 2 * x - p, 1, g - p, d);
    }
  }

  lemma {:induction false} ShiftXor(g: nat, d: nat, x: nat, y: nat)
    requires x < Pow2(d) && y < Pow2(d)
    ensures Shift(g, d, Xor(x, y)) == Xor(Shift(g, d, x), Shift(g, d, y))
  {
    TopBitXor(d, x, y);
    XorDouble(x, y);
    var t, u := TopBit(d, x), TopBit(d, y);
    XorSwap(2 * x, if t == 1 then g else 0, 2 * y, if u == 1 then g else 0);
    XorSelf(g); XorZero(g); XorZero(0); XorZero(2 * x); XorZero(2 * y); XorZero(Xor(2 * x, 2 * y));
  }

  /** With a nonzero constant term the step loses nothing. */
  lemma {:induction false} ShiftInjective(g: nat, d: nat, x: nat, y: nat)
    requires g % 2 == 1
    requires x < Pow2(d) && y < Pow2(d)
    requires Shift(g, d, x) == Shift(g, d, y)
    ensures x == y
  {
    ShiftXor(g, d, x, y);
    XorSelf(Shift(g, d, x));
    var z := Xor(x, y);
    if TopBit(d, z) == 1 {
      XorZeroEqual(2 * z, g);
      assert false;
    } else {
      XorZeroEqual(x, y);
    }
  }

  lemma {:induction false} ShiftNBound(g: nat, d: nat, k: nat, x: nat)
    requires HasDegree(g, d) && x < Pow2(d)
    ensures ShiftN(g, d, k, x) < Pow2(d)
  {
    if k > 0 {
      ShiftNBound(g, d, k - 1, x);
      ShiftBound(g, d, ShiftN(g, d, k - 1, x));
    }
  }

  lemma {:induction false} ShiftNXor(g: nat, d: nat, k: nat, x: nat, y: nat)
    requires HasDegree(g, d) && x < Pow2(d) && y < Pow2(d)
    ensures ShiftN(g, d, k, Xor(x, y)) == Xor(ShiftN(g, d, k, x), ShiftN(g, d, k, y))
  {
    hide Xor; hide Shift;
    if k > 0 {
      ShiftNXor(g, d, k - 1, x, y);
      ShiftNBound(g, d, k - 1, x); ShiftNBound(g, d, k - 1, y);
      ShiftXor(g, d, ShiftN(g, d, k - 1, x), ShiftN(g, d, k - 1, y));
    }
  }

  lemma {:induction false} ShiftNAdd(g: nat, d: nat, j: nat, k: nat, x: nat)
    ensures ShiftN(g, d, j, ShiftN(g, d, k, x)) == ShiftN(g, d, j + k, x)
  {
    if j > 0 { ShiftNAdd(g, d, j - 1, k, x); }
  }

  // ----- the remainder

  lemma {:induction false} ReduceBound(g: nat, d: nat, v: nat)
    requires HasDegree(g, d) && d > 0
    ensures Reduce(g, d, v) < Pow2(d)
  {
    if v > 0 {
      ReduceBound(g, d, v / 2);
      var s := Shift(g, d, Reduce(g, d, v / 2));
      ShiftBound(g, d, Reduce(g, d, v / 2));
      Pow2Monotone(1, d);
      XorBound(s, v % 2, d);
    }
  }

  lemma {:induction false} ReduceDouble(g: nat, d: nat, v: nat)
    ensures Reduce(g, d, 2 * v) == Shift(g, d, Reduce(g, d, v))
  {
    XorZero(Shift(g, d, Reduce(g, d, v)));
  }

  lemma {:induction false} ReduceBit(g: nat, d: nat, v: nat, i: nat)
    requires i < 2
    ensures Reduce(g, d, 2 * v + i) == Xor(Shift(g, d, Reduce(g, d, v)), i)
  {
    var w := 2 * v + i;
    assert w / 2 == v && w % 2 == i;
    XorZero(0);
  }

  lemma {:induction false} ReduceXor(g: nat, d: nat, u: nat, v: nat)
    requires HasDegree(g, d) && d > 0
    ensures Reduce(g, d, Xor(u, v)) == Xor(Reduce(g, d, u), Reduce(g, d, v))
    decreases u + v
  {
    hide Xor; hide Shift;
    if u == 0 { XorZero(v); XorZero(Reduce(g, d, v)); }
    else if v == 0 { XorZero(u); XorZero(Reduce(g, d, u)); }
    else {
      ReduceXor(g, d, u / 2, v / 2);
      ReduceXorStep(g, d, u / 2, u % 2, v / 2, v % 2);
    }
  }

  lemma {:induction false} ReduceXorStep(g: nat, d: nat, u: nat, i: nat, v: nat, j: nat)
    requires HasDegree(g, d) && d > 0 && i < 2 && j < 2
    requires Reduce(g, d, Xor(u, v)) == Xor(Reduce(g, d, u), Reduce(g, d, v))
    ensures Reduce(g, d, Xor(2 * u + i, 2 * v + j)) == Xor(Reduce(g, d, 2 * u + i), Reduce(g, d, 2 * v + j))
  {
    hide Reduce; hide Shift; hide Xor;
    var s, t := Reduce(g, d, u), Reduce(g, d, v);
    ReduceBound(g, d, u); ReduceBound(g, d, v);
    ShiftXor(g, d, s, t);
    XorCons(u, i, v, j);
    ReduceBit(g, d, Xor(u, v), (i + j) % 2);
    ReduceBit(g, d, u, i); ReduceBit(g, d, v, j);
    XorSwap(Shift(g, d, s), i, Shift(g, d, t), j);
    XorBits(i, j);
  }

  lemma {:induction false} ReduceSmall(g: nat, d: nat, v: nat)
    requires v < Pow2(d)
    ensures Reduce(g, d, v) == v
  {
    if v > 0 {
      Pow2Pos(d, v);
      ReduceSmall(g, d, v / 2);
      XorCons(v / 2, 0, 0, v % 2); XorZero(v / 2);
    }
  }

  lemma Pow2Pos(d: nat, v: nat)
    requires 0 < v < Pow2(d)
    ensures d > 0 && v / 2 < Pow2(d - 1) && 2 * (v / 2) < Pow2(d)
  {
  }

  lemma {:induction false} ReduceSelf(g: nat, d: nat)
    requires HasDegree(g, d) && d > 0
    ensures Reduce(g, d, g) == 0
  {
    var h := g / 2;
    assert h < Pow2(d) && 2 * h >= Pow2(d);
    ReduceSmall(g, d, h);
    XorCons(h, 0, h, g % 2); XorSelf(h);
    XorSelf(g % 2);
  }

  lemma {:induction false} ReduceShifted(g: nat, d: nat, v: nat, k: nat)
    ensures Reduce(g, d, v * Pow2(k)) == ShiftN(g, d, k, Reduce(g, d, v))
  {
    hide Reduce; hide Shift;
    if k > 0 {
      ReduceShifted(g, d, v, k - 1);
      assert v * Pow2(k) == 2 * (v * Pow2(k - 1));
      ReduceDouble(g, d, v * Pow2(k - 1));
    }
  }

  // ----- Reduce is the remainder of polynomial division

  lemma {:induction false} Division(g: nat, d: nat, v: nat)
    requires HasDegree(g, d) && d > 0
    ensures v == Xor(ClMul(Quotient(g, d, v), g), Reduce(g, d, v))
    ensures Reduce(g, d, v) < Pow2(d)
  {
    hide Xor;
    ReduceBound(g, d, v);
    if v > 0 {
      var h, i := v / 2, v % 2;
      Division(g, d, h);
      var q, r := Quotient(g, d, h), Reduce(g, d, h);
      var t := TopBit(d, r);
      DivisionStep(g, q, t, r, i);
      assert Shift(g, d, r) == Xor(2 * r, if t == 1 then g else 0) by { XorZero(2 * r); }
    } else {
      XorZero(0);
    }
  }

  lemma {:induction false} ClMulCons(q: nat, t: nat, g: nat)
    requires t < 2
    ensures ClMul(2 * q + t, g) == Xor(if t == 1 then g else 0, 2 * ClMul(q, g))
  {
    if q == 0 && t == 0 { XorZero(0); }
  }

  lemma {:induction false} DivisionStep(g: nat, q: nat, t: nat, r: nat, i: nat)
    requires t < 2 && i < 2
    ensures Xor(ClMul(2 * q + t, g), Xor(Xor(2 * r, if t == 1 then g else 0), i))
         == 2 * Xor(ClMul(q, g), r) + i
  {
    hide Xor; hide ClMul;
    var tg := if t == 1 then g else 0;
    var c := ClMul(q, g);
    ClMulCons(q, t, g);
    XorAssoc(2 * r, tg, i); XorComm(tg, i); XorAssoc(2 * r, i, tg);
    XorSwap(tg, 2 * c, Xor(2 * r, i), tg);
    XorComm(tg, Xor(2 * r, i));
    XorComm(2 * c, tg);
    XorSwap(Xor(2 * r, i), tg, tg, 2 * c);
    XorComm(Xor(2 * r, i), tg);
    XorSwap(tg, Xor(2 * r, i), tg, 2 * c);
    XorSelf(tg); XorZero(Xor(Xor(2 * r, i), 2 * c));
    XorCons(r, 0, 0, i); XorZero(r); 
    XorCons(r, i, c, 0);
    XorComm(r, c);
  }

  lemma {:induction false} ReduceMultiple(g: nat, d: nat, q: nat)
    requires HasDegree(g, d) && d > 0
    ensures Reduce(g, d, ClMul(q, g)) == 0
  {
    if q > 0 {
      ReduceMultiple(g, d, q / 2);
      var c := ClMul(q / 2, g);
      ReduceXor(g, d, if q % 2 == 1 then g else 0, 2 * c);
      ReduceSelf(g, d);
      ReduceDouble(g, d, c);
      assert Shift(g, d, 0) == 0;
      XorZero(0);
    }
  }

  /** Any decomposition with a small remainder has the remainder Reduce computes. */
  lemma {:induction false} RemainderUnique(g: nat, d: nat, q: nat, r: nat)
    requires HasDegree(g, d) && d > 0 && r < Pow2(d)
    ensures Reduce(g, d, Xor(ClMul(q, g), r)) == r
  {
    ReduceXor(g, d, ClMul(q, g), r);
    ReduceMultiple(g, d, q);
    ReduceSmall(g, d, r);
    XorZero(r);
  }

  // ----- scaling by a power of x

  lemma {:induction false} ClMulScale(q: nat, g: nat, s: nat)
    ensures ClMul(q, g * Pow2(s)) == ClMul(q, g) * Pow2(s)
  {
    hide Xor; hide Pow2;
    if q > 0 {
      ClMulScale(q / 2, g, s);
      var c := ClMul(q / 2, g);
      assert 2 * (c * Pow2(s)) == (2 * c) * Pow2(s);
      XorShift(if q % 2 == 1 then g else 0, 2 * c, s);
    }
  }

  lemma DegreeScale(g: nat, d: nat, s: nat)
    requires HasDegree(g, d)
    ensures HasDegree(g * Pow2(s), d + s)
  {
    hide Pow2;
    Pow2Add(d, s); Pow2Add(d + 1, s);
    assert Pow2(d) * Pow2(s) <= g * Pow2(s);
    assert g * Pow2(s) < Pow2(d + 1) * Pow2(s);
  }

  lemma {:induction false} ReduceScaled(g: nat, d: nat, s: nat, v: nat)
    requires HasDegree(g, d) && d > 0
    ensures HasDegree(g * Pow2(s), d + s)
    ensures Reduce(g * Pow2(s), d + s, v * Pow2(s)) == Reduce(g, d, v) * Pow2(s)
  {
    hide Xor; hide Pow2; hide Reduce; hide ClMul; hide Quotient;
    DegreeScale(g, d, s);
    Division(g, d, v);
    var q, r := Quotient(g, d, v), Reduce(g, d, v);
    ClMulScale(q, g, s);
    XorShift(ClMul(q, g), r, s);
    Pow2Add(d, s);
    assert r * Pow2(s) < Pow2(d) * Pow2(s);
    RemainderUnique(g * Pow2(s), d + s, q, r * Pow2(s));
  }
}
