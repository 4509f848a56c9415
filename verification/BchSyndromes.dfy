/** compute_syndromes: the values of the received remainder at the powers of alpha, odd powers bit
    by bit and even powers as squares.
 */
module BchSyndromes {
  import opened Bits
  import opened BinaryPoly
  import opened GaloisField
  import opened FieldLaws
  import opened BinaryEval
  import opened Words
  import opened BchGenerator
  import opened BchStream
  import opened BchEncoder

  /** p, read as bits of weight x^(i + s), is the polynomial v. */
  ghost predicate Aligned(p: nat, s: int, v: nat) {
    if s >= 0 then v == Join(p, s, 0) else p == Join(v, -s, 0)
  }

  lemma {:induction false} JoinPow2(i: nat, s: nat)
    ensures Join(Pow2(i), s, 0) == Pow2(i + s)
  {
    Pow2Add(i, s);
  }

  lemma {:induction false} AlignedBit(p: nat, s: int, v: nat)
    requires p > 0 && Aligned(p, s, v)
    ensures Degree(p) + s >= 0
    ensures Aligned(Xor(p, Pow2(Degree(p))), s, Xor(v, Pow2(Degree(p) + s)))
    ensures Xor(p, Pow2(Degree(p))) < p
  {
    var i := Degree(p);
    LeadingBit(p);
    if s >= 0 {
      hide Xor; hide Pow2; hide Join; hide Degree;
      JoinPow2(i, s);
      XorJoinShift(p, Pow2(i), s);
    } else {
      var k := -s;
      assert v > 0;
      DegreeShifted(v, k);
      hide Xor; hide Pow2; hide Join; hide Degree;
      JoinPow2(Degree(v), k);
      XorJoinShift(v, Pow2(Degree(v)), k);
    }
  }

  lemma {:induction false} DegreeShifted(v: nat, k: nat)
    requires v > 0
    ensures Join(v, k, 0) > 0 && Degree(Join(v, k, 0)) == Degree(v) + k
  {
    hide Pow2;
    var e := Degree(v);
    DegreeScale(v, e, k);
    DegreeUnique(Join(v, k, 0), e + k);
  }

  lemma {:induction false} LeadingBit(p: nat)
    requires p > 0
    ensures Xor(p, Pow2(Degree(p))) < p
  {
    hide Xor;
    var e := Degree(p);
    var q := Pow2(e);
    assert p == 1 * q + (p - q) && q == 1 * q + 0;
    XorSplit(1, p - q, 1, 0, e);
    XorBits(1, 1); XorZero(p - q);
  }

  /** xor of one bit's contribution into every odd-power syndrome. */
  method AddBit(f: Field, t: nat, e: nat, syn: array<nat>, ghost v: nat)
    requires f.Valid() && syn.Length == 2 * t
    requires forall j: nat | j < t :: syn[2 * j] == EvalAt(f, v, j)
    modifies syn
    ensures forall j: nat | j < t :: syn[2 * j] == EvalAt(f, Xor(v, Pow2(e)), j)
  {
    hide EvalAt; hide Xor; hide Pow2; hide Field.Valid; hide Field.APow;
    var j := 0;
    while j < 2 * t
      invariant j <= 2 * t && j % 2 == 0
      invariant forall k: nat | k < t :: syn[2 * k] == EvalAt(f, if 2 * k < j then Xor(v, Pow2(e)) else v, k)
    {
      EvalAddBit(f, v, e, j / 2);
      assert 2 * (j / 2) == j;
      syn[j] := Xor(syn[j], f.APow((j + 1) * e));
      j := j + 2;
    }
  }

  ghost function EvalAt(f: Field, v: nat, j: nat): nat
    requires f.Valid()
  {
    AlphaMod(f, 2 * j + 1); EvalBits(f, v, A(f, 2 * j + 1))
  }

  lemma {:induction false} EvalAddBit(f: Field, v: nat, e: nat, j: nat)
    requires f.Valid()
    ensures EvalAt(f, Xor(v, Pow2(e)), j) == Xor(EvalAt(f, v, j), f.APow((2 * j + 1) * e))
  {
    hide EvalBits; hide A; hide Xor; hide Pow2; hide Field.Valid; hide Field.APow;
    AlphaMod(f, 2 * j + 1);
    EvalXor(f, v, Pow2(e), A(f, 2 * j + 1));
    EvalMonomial(f, e, 2 * j + 1);
    AlphaMod(f, (2 * j + 1) * e);
  }

  /** One word of the remainder, highest bit first. */
  method AddWord(f: Field, t: nat, word: nat, s: int, syn: array<nat>, ghost before: nat, ghost part: nat)
    requires f.Valid() && syn.Length == 2 * t && Aligned(word, s, part)
    requires forall j: nat | j < t :: syn[2 * j] == EvalAt(f, before, j)
    modifies syn
    ensures forall j: nat | j < t :: syn[2 * j] == EvalAt(f, Xor(before, part), j)
  {
    hide EvalAt; hide Xor; hide Pow2; hide Field.Valid; hide Degree;
    var poly := word;
    ghost var v, left := before, part;
    while poly != 0
      invariant Aligned(poly, s, left) && Xor(v, left) == Xor(before, part)
      invariant forall j: nat | j < t :: syn[2 * j] == EvalAt(f, v, j)
      decreases poly
    {
      var i := Degree(poly);
      AlignedBit(poly, s, left);
      AddBit(f, t, i + s, syn, v);
      XorMove(v, left, Pow2(i + s));
      v, left := Xor(v, Pow2(i + s)), Xor(left, Pow2(i + s));
      poly := Xor(poly, Pow2(i));
    }
    AlignedZero(s, left);
    XorZero(v);
  }

  lemma {:induction false} XorMove(a: nat, b: nat, c: nat)
    ensures Xor(Xor(a, c), Xor(b, c)) == Xor(a, b)
  {
    hide Xor;
    XorSwap(a, c, b, c); XorSelf(c); XorZero(Xor(a, b));
  }

  lemma AlignedZero(s: int, v: nat)
    requires Aligned(0, s, v)
    ensures v == 0
  {
  }

  // ----- the words of the remainder

  /** The d-bit polynomial in the top bits of the first K = ceil(d/32) words. */
  ghost function TopPoly(ws: seq<nat>, d: nat): nat
    requires WordCount(d) <= |ws|
  {
    Shr(Value(ws[..WordCount(d)]), 32 * WordCount(d) - d)
  }

  /** The low bits of the last word cleared: x & ~((1 << k) - 1). */
  function ClearLow(w: nat, k: nat): nat {
    RemainderAtMost(w, Pow2(k));
    w - w % Pow2(k)
  }

  lemma RemainderAtMost(w: nat, p: nat)
    requires p > 0
    ensures 0 <= w % p <= w
  {
    var q, r := w / p, w % p;
    assert w == q * p + r;
    assert q * p >= 0;
  }

  lemma {:induction false} ClearLowAligned(w: nat, k: nat)
    ensures ClearLow(w, k) == Join(Shr(w, k), k, 0) && ClearLow(w, k) <= w
  {
    hide Pow2;
    var p := Pow2(k);
    assert w == (w / p) * p + w % p;
  }

  /** The polynomial of the first k words. */
  ghost function Prefix(ws: seq<nat>, d: nat, k: nat): nat
    requires k <= WordCount(d) <= |ws| && d > 0
  {
    if 32 * k <= d then Join(Value(ws[..k]), d - 32 * k, 0) else TopPoly(ws, d)
  }

  /** The part that word k contributes. */
  ghost function Part(ws: seq<nat>, d: nat, k: nat): nat
    requires k < WordCount(d) <= |ws| && d > 0
  {
    if 32 * (k + 1) <= d then Join(ws[k], d - 32 * (k + 1), 0) else Shr(ws[k], 32 * (k + 1) - d)
  }

  lemma {:induction false} PrefixStep(ws: seq<nat>, d: nat, k: nat)
    requires k < WordCount(d) <= |ws| && d > 0 && IsWords(ws)
    ensures Prefix(ws, d, k + 1) == Xor(Prefix(ws, d, k), Part(ws, d, k))
  {
    hide Xor; hide Pow2; hide Value;
    assert ws[..k + 1] == ws[..k] + [ws[k]];
    ValueSnoc(ws[..k], ws[k]);
    Powers();
    var a := Value(ws[..k]);
    if 32 * (k + 1) <= d {
      JoinIsXor(a, 32, ws[k]);
      assert Value(ws[..k + 1]) == Join(a, 32, ws[k]);
      hide Join;
      XorJoinShift(Join(a, 32, 0), ws[k], d - 32 * (k + 1));
      JoinJoin(a, 32, d - 32 * (k + 1));
    } else {
      var pad, m := 32 * (k + 1) - d, d - 32 * k;
      assert WordCount(d) == k + 1;
      ShrJoin(a, m, pad, ws[k]);
      ShrBound(ws[k], m, pad);
      JoinIsXor(a, m, Shr(ws[k], pad));
    }
  }

  lemma {:induction false} ShrJoin(a: nat, m: nat, pad: nat, w: nat)
    requires m + pad == 32
    ensures Shr(a * WORD + w, pad) == Join(a, m, Shr(w, pad))
  {
    hide Pow2;
    var p, q := Pow2(pad), Pow2(m);
    Powers(); Pow2Add(m, pad);
    assert w == (w / p) * p + w % p;
    assert a * WORD == (a * q) * p by { assert a * (q * p) == (a * q) * p; }
    assert (a * q) * p + (w / p) * p == (a * q + w / p) * p;
    DivModUnique(a * WORD + w, a * q + w / p, w % p, p);
  }

  lemma {:induction false} ShrBound(w: nat, m: nat, pad: nat)
    requires m + pad == 32 && w < WORD
    ensures Shr(w, pad) < Pow2(m)
  {
    hide Pow2;
    SplitWord(w, m);
  }

  lemma {:induction false} PrefixEnds(ws: seq<nat>, d: nat)
    requires d > 0 && WordCount(d) <= |ws|
    ensures Prefix(ws, d, 0) == 0 && Prefix(ws, d, WordCount(d)) == TopPoly(ws, d)
  {
    WordCountRange(d);
    hide Pow2; hide WordCount; hide Value;
    assert ws[..0] == [];
    EmptyNumbers();
    var V := Value(ws[..WordCount(d)]);
    JoinZero(V); ShrZero(V);
  }

  /** Masking the bits below the polynomial does not change it. */
  lemma {:induction false} MaskKeepsTop(ws: seq<nat>, d: nat, k: nat)
    requires d > 0 && k == WordCount(d) - 1 < |ws| && IsWords(ws)
    ensures ClearLow(ws[k], 32 * (k + 1) - d) < WORD
    ensures var us := ws[k := ClearLow(ws[k], 32 * (k + 1) - d)];
      TopPoly(us, d) == TopPoly(ws, d) && Aligned(us[k], d - 32 * (k + 1), Part(us, d, k))
  {
    hide Pow2; hide Value;
    var pad := 32 * (k + 1) - d;
    var c := ClearLow(ws[k], pad);
    var us := ws[k := c];
    ClearLowAligned(ws[k], pad);
    assert us[..k] == ws[..k];
    assert us[..k + 1] == ws[..k] + [c] && ws[..k + 1] == ws[..k] + [ws[k]];
    ValueSnoc(ws[..k], c); ValueSnoc(ws[..k], ws[k]);
    ShrJoin(Value(ws[..k]), 32 - pad, pad, c); ShrJoin(Value(ws[..k]), 32 - pad, pad, ws[k]);
    ShrOfJoin(Shr(ws[k], pad), pad);
    if pad == 0 { JoinZero(c); ShrZero(c); }
  }

  lemma ShrOfJoin(v: nat, k: nat)
    ensures Shr(Join(v, k, 0), k) == v
  {
    DivModUnique(v * Pow2(k), v, 0, Pow2(k));
  }

  lemma {:induction false} PartAligned(ws: seq<nat>, d: nat, k: nat)
    requires d > 0 && k < WordCount(d) <= |ws| && 32 * (k + 1) <= d
    ensures Aligned(ws[k], d - 32 * (k + 1), Part(ws, d, k))
  {
  }

  /** The syndrome of twice the index of syn[j] is the square of syn[j]. */
  ghost predicate SquareAt(f: Field, syn: seq<nat>, j: nat)
    requires f.Valid() && 2 * j + 1 < |syn|
  {
    syn[j] <= f.N() && syn[2 * j + 1] == f.Sqr(syn[j])
  }

  /** compute_syndromes over the remainder in ecc. */
  method ComputeSyndromes(f: Field, t: nat, d: nat, ecc: array<nat>, syn: array<nat>)
    requires f.Valid() && syn.Length == 2 * t && syn != ecc
    requires d > 0 && WordCount(d) <= ecc.Length && IsWords(ecc[..])
    modifies ecc, syn
    ensures forall j: nat | j < t :: syn[2 * j] == EvalAt(f, TopPoly(old(ecc[..]), d), j)
    ensures forall j: nat | j < t :: SquareAt(f, syn[..], j)
  {
    hide EvalAt; hide Xor; hide Pow2; hide Field.Valid; hide Value; hide Prefix; hide Part; hide ClearLow; hide Field.Sqr;
    hide Aligned; hide TopPoly;
    ghost var K, R := WordCount(d), TopPoly(ecc[..], d);
    var m := d % 32;
    MaskKeepsTop(ecc[..], d, K - 1);
    if m != 0 {
      ghost var was := ecc[..];
      ecc[d / 32] := ClearLow(ecc[d / 32], 32 - m);
      assert d / 32 == K - 1 && 32 * K - d == 32 - m;
      assert ecc[..] == was[K - 1 := ClearLow(was[K - 1], 32 - m)];
    } else {
      assert 32 * K == d;
      PartAligned(ecc[..], d, K - 1);
    }
    ghost var ws := ecc[..];
    ClearSyndromes(f, t, syn);
    PrefixEnds(ws, d);
    var s: int := d;
    var k := 0;
    while k == 0 || s > 0
      invariant 0 <= k <= K && s == d - 32 * k && ecc[..] == ws
      invariant forall j: nat | j < t :: syn[2 * j] == EvalAt(f, Prefix(ws, d, k), j)
      decreases K - k
    {
      var poly := ecc[k];
      s := s - 32;
      if k < K - 1 { PartAligned(ws, d, k); }
      AddWord(f, t, poly, s, syn, Prefix(ws, d, k), Part(ws, d, k));
      PrefixStep(ws, d, k);
      k := k + 1;
    }
    SquareSyndromes(f, t, syn, R);
  }

  method ClearSyndromes(f: Field, t: nat, syn: array<nat>)
    requires f.Valid() && syn.Length == 2 * t
    modifies syn
    ensures forall j: nat | j < t :: syn[2 * j] == EvalAt(f, 0, j)
  {
    var i := 0;
    while i < syn.Length
      invariant i <= syn.Length && forall j | 0 <= j < i :: syn[j] == 0
    {
      syn[i] := 0;
      i := i + 1;
    }
    forall j: nat | j < t ensures syn[2 * j] == EvalAt(f, 0, j) {
      AlphaMod(f, 2 * j + 1);
      EvalZero(f, A(f, 2 * j + 1));
    }
  }

  lemma EvalAtBound(f: Field, v: nat, j: nat)
    requires f.Valid()
    ensures EvalAt(f, v, j) <= f.N()
  {
    AlphaMod(f, 2 * j + 1);
  }

  /** The even powers: each syndrome squared gives the one of twice its index. */
  method SquareSyndromes(f: Field, t: nat, syn: array<nat>, ghost v: nat)
    requires f.Valid() && syn.Length == 2 * t
    requires forall j: nat | j < t :: syn[2 * j] == EvalAt(f, v, j)
    modifies syn
    ensures forall j: nat | j < t :: syn[2 * j] == EvalAt(f, v, j)
    ensures forall j: nat | j < t :: SquareAt(f, syn[..], j)
  {
    hide EvalAt; hide Field.Valid; hide Field.Sqr; hide Pow2;
    var j := 0;
    while j < t
      invariant j <= t
      invariant forall k: nat | k < t :: syn[2 * k] == EvalAt(f, v, k)
      invariant forall k: nat | k < j :: SquareAt(f, syn[..], k)
    {
      if j % 2 == 0 {
        EvalAtBound(f, v, j / 2);
        assert syn[2 * (j / 2)] == EvalAt(f, v, j / 2);
      } else {
        assert SquareAt(f, syn[..], j / 2);
      }
      ghost var was := syn[..];
      syn[2 * j + 1] := f.Sqr(syn[j]);
      forall k: nat | k < j ensures SquareAt(f, syn[..], k) { assert SquareAt(f, was, k); }
      j := j + 1;
    }
  }
}
