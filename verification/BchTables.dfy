/** build_mod8_tables: the remainders of i x^(8b) x^W modulo G for every byte i and position b < 4,
    by long division on a row of words.

    G is the generator g shifted left so that its degree is W = 32 L, the width of the row; a
    remainder modulo g, left-aligned in the row, is a remainder modulo G.
 */
module BchTables {
  import opened Bits
  import opened BinaryPoly
  import opened Words
  import opened BchGenerator
  import opened BinaryEval

  /** Row for byte value i at byte position b. */
  ghost predicate RowOk(G: nat, l: nat, row: seq<nat>, b: nat, i: nat) {
    && |row| == l && IsWords(row)
    && Value(row) == Reduce(G, 32 * l, Join(Join(i, 8 * b, 0), 32 * l, 0))
  }

  /** The packed generator padded with zero words to l + 1 words. */
  ghost function Extended(gs: seq<nat>, l: nat): (ws: seq<nat>)
    requires |gs| <= l + 1
    ensures |ws| == l + 1 && (IsWords(gs) ==> IsWords(ws))
    ensures forall j | 0 <= j <= l :: ws[j] == if j < |gs| then gs[j] else 0
  {
    seq(l + 1, j requires 0 <= j <= l => if j < |gs| then gs[j] else 0)
  }

  lemma {:induction false} ExtendedValue(gs: seq<nat>, l: nat)
    requires |gs| <= l + 1
    ensures Value(Extended(gs, l)) == Value(gs) * Pow2(32 * (l + 1 - |gs|))
    decreases l
  {
    hide Value; hide Pow2;
    if |gs| == l + 1 {
      assert Extended(gs, l) == gs;
      assert 32 * (l + 1 - |gs|) == 0;
      PowOne();
    } else if l == 0 {
      assert gs == [] && Extended(gs, l) == [0];
      ValueOne(0); EmptyNumbers();
    } else {
      ExtendedValue(gs, l - 1);
      assert Extended(gs, l) == Extended(gs, l - 1) + [0];
      ValueSnoc(Extended(gs, l - 1), 0);
      Powers(); Pow2Add(32 * (l - |gs|), 32);
      assert (Value(gs) * Pow2(32 * (l - |gs|))) * WORD == Value(gs) * (Pow2(32 * (l - |gs|)) * WORD);
    }
  }

  /** What the word loop of build_mod8_tables needs to know about the packed generator. */
  ghost predicate Packed(gs: seq<nat>, g: nat, d: nat, l: nat) {
    && HasDegree(g, d) && 0 < d <= 32 * l
    && |gs| == WordCount(d + 1) && IsWords(gs)
    && Value(gs) == g * Pow2(32 * |gs| - (d + 1))
  }

  ghost function Modulus(g: nat, d: nat, l: nat): nat
    requires d <= 32 * l
  {
    g * Pow2(32 * l - d)
  }

  lemma {:induction false} ModulusDegree(g: nat, d: nat, l: nat)
    requires HasDegree(g, d) && d <= 32 * l
    ensures HasDegree(Modulus(g, d, l), 32 * l)
  {
    DegreeScale(g, d, 32 * l - d);
  }

  lemma {:induction false} ValueLast(ws: seq<nat>)
    requires ws != [] && IsWords(ws)
    ensures Value(ws) % WORD == ws[|ws| - 1]
  {
    hide Value;
    var k := |ws| - 1;
    assert ws == ws[..k] + [ws[k]];
    ValueSnoc(ws[..k], ws[k]);
    DivModUnique(Value(ws), Value(ws[..k]), ws[k], WORD);
  }

  /** When the degree fills whole words the last generator word holds only its top bit. */
  lemma {:induction false} LastWordShiftsOut(gs: seq<nat>, g: nat, d: nat, l: nat, s: nat)
    requires Packed(gs, g, d, l) && d % 32 == 0 && 1 <= s <= 32
    ensures Shl(gs[|gs| - 1], s) == 0
  {
    hide Value; hide Pow2;
    var k := |gs| - 1;
    assert 32 * |gs| - (d + 1) == 31;
    ValueLast(gs);
    Powers();
    var c := g % 2;
    assert g * Pow2(31) == (g / 2) * WORD + c * Pow2(31);
    DivModUnique(g * Pow2(31), g / 2, c * Pow2(31), WORD);
    Pow2Add(31, s); Pow2Add(32, s - 1);
    assert (c * Pow2(31)) * Pow2(s) == (c * Pow2(s - 1)) * WORD;
    DivModUnique((c * Pow2(31)) * Pow2(s), c * Pow2(s - 1), 0, WORD);
  }

  lemma PackedLength(gs: seq<nat>, g: nat, d: nat, l: nat)
    requires Packed(gs, g, d, l)
    ensures 1 <= |gs| <= l + 1 && WordCount(d) <= l
    ensures |gs| == if d % 32 == 0 then WordCount(d) + 1 else WordCount(d)
  {
  }

  lemma {:induction false} TailShiftsOut(gs: seq<nat>, g: nat, d: nat, l: nat, s: nat, j: nat)
    requires Packed(gs, g, d, l) && 1 <= s <= 32 && WordCount(d) <= j <= l
    ensures |gs| <= l + 1 && ShiftWords(Extended(gs, l), s)[j] == 0
  {
    PackedLength(gs, g, d, l);
    hide Value; hide Pow2; hide Shl; hide Shr; hide WordCount;
    Shr0(32 - s); Shl0(s);
    if j < |gs| {
      hide Packed; hide ShiftWords;
      LastWordShiftsOut(gs, g, d, l, s);
    }
  }

  lemma Shl0(s: nat)
    ensures Shl(0, s) == 0
  {
    assert 0 * Pow2(s) == 0;
  }

  /** One subtraction of the long division: G x^e is top x^W plus the row that is xored in. */
  lemma {:induction false} ShiftedGenerator(gs: seq<nat>, g: nat, d: nat, l: nat, e: nat)
    requires Packed(gs, g, d, l) && e < 32
    ensures |gs| <= l + 1
    ensures var sh := ShiftWords(Extended(gs, l), e + 1);
      && IsWords(sh[..l])
      && Modulus(g, d, l) * Pow2(e) == Join(Shr(gs[0], 31 - e), 32 * l, Value(sh[..l]))
  {
    hide Value; hide Pow2; hide Shl; hide Shr; hide ShiftWords;
    var ws, s := Extended(gs, l), e + 1;
    var sh := ShiftWords(ws, s);
    ShiftWordsAreWords(ws, s);
    ShiftWordsValue(ws, s);
    TailShiftsOut(gs, g, d, l, s, l);
    assert sh == sh[..l] + [0];
    ValueSnoc(sh[..l], 0);
    ExtendedValue(gs, l);
    GeneratorScale(gs, g, d, l, e);
    var top, p, q := Shr(gs[0], 31 - e), Pow2(32 * l), Modulus(g, d, l) * Pow2(e);
    assert Pow2(32 * (l + 1)) == WORD * p by { Powers(); Pow2Add(32, 32 * l); }
    assert top * (WORD * p) == (top * p) * WORD;
    assert q * WORD == (top * p + Value(sh[..l])) * WORD;
  }

  lemma {:induction false} GeneratorScale(gs: seq<nat>, g: nat, d: nat, l: nat, e: nat)
    requires Packed(gs, g, d, l) && |gs| <= l + 1
    ensures (Value(gs) * Pow2(32 * (l + 1 - |gs|))) * Pow2(e + 1) == (Modulus(g, d, l) * Pow2(e)) * WORD
  {
    hide Value; hide Pow2;
    var a, b, c := 32 * |gs| - (d + 1), 32 * (l + 1 - |gs|), 32 * l - d;
    Powers();
    ScaleScale(g, a, b); ScaleScale(g, a + b, e + 1);
    ScaleScale(g, c, e); ScaleScale(g, c + e, 32);
  }

  lemma ScaleScale(g: nat, a: nat, b: nat)
    ensures (g * Pow2(a)) * Pow2(b) == g * Pow2(a + b)
  {
    hide Pow2;
    Pow2Add(a, b);
  }

  /** The xor of G x^e leaves the remainder alone and clears the leading bit of data. */
  lemma {:induction false} DivideStep(G: nat, W: nat, e: nat, data: nat, top: nat, v: nat, delta: nat)
    requires HasDegree(G, W) && W > 0 && data > 0 && e == Degree(data)
    requires v < Pow2(W) && delta < Pow2(W) && G * Pow2(e) == Join(top, W, delta)
    ensures Xor(data, top) < data
    ensures Reduce(G, W, Join(Xor(data, top), W, Xor(v, delta))) == Reduce(G, W, Join(data, W, v))
  {
    hide Xor; hide Reduce; hide Degree; hide Pow2; hide Join; hide HasDegree;
    TopRange(G, W, e, top, delta);
    LeadingBitCleared(data, top, e);
    XorJoin(data, v, top, delta, W);
    ReduceXor(G, W, Join(data, W, v), Join(top, W, delta));
    ReduceShifted(G, W, G, e);
    ReduceSelf(G, W);
    ShiftZeroN(G, W, e);
    XorZero(Reduce(G, W, Join(data, W, v)));
  }

  lemma {:induction false} ShiftZeroN(g: nat, d: nat, k: nat)
    ensures ShiftN(g, d, k, 0) == 0
  {
    if k > 0 { ShiftZeroN(g, d, k - 1); }
  }

  lemma {:induction false} TopRange(G: nat, W: nat, e: nat, top: nat, delta: nat)
    requires HasDegree(G, W) && delta < Pow2(W) && G * Pow2(e) == Join(top, W, delta)
    ensures Pow2(e) <= top < Pow2(e + 1)
  {
    hide Pow2;
    var p, q := Pow2(W), Pow2(e);
    Pow2Add(1, W); Pow2Add(1, e); PowOne();
    assert p * q <= G * q < (2 * p) * q;
    assert p * q == q * p && (2 * p) * q == (2 * q) * p;
    MulMonotone(top + 1, q, p);
    MulMonotone(2 * q, top, p);
    assert (top + 1) * p == top * p + p;
  }

  lemma {:induction false} LeadingBitCleared(a: nat, b: nat, e: nat)
    requires Pow2(e) <= a < Pow2(e + 1) && Pow2(e) <= b < Pow2(e + 1)
    ensures Xor(a, b) < a
  {
    hide Xor;
    var p := Pow2(e);
    assert Pow2(e + 1) == 2 * p;
    assert a == 1 * p + (a - p) && b == 1 * p + (b - p);
    XorSplit(1, a - p, 1, b - p, e);
    XorBits(1, 1);
  }

  // ----- the builder

  /** One table row: the long division of i x^(8b) x^W by G. */
  method BuildRow(gs: array<nat>, ghost g: nat, d: nat, l: nat, b: nat, i: nat) returns (row: array<nat>)
    requires Packed(gs[..], g, d, l) && b < 4 && i < 256
    ensures fresh(row) && RowOk(Modulus(g, d, l), l, row[..], b, i)
  {
    hide Value; hide Pow2; hide Reduce; hide Xor; hide ShiftWords; hide Modulus;
    row := new nat[l](_ => 0);
    var data: nat := Join(i, 8 * b, 0);
    ghost var G, W := Modulus(g, d, l), 32 * l;
    ModulusDegree(g, d, l);
    ghost var goal := Reduce(G, W, Join(data, W, 0));
    ZeroRow(row[..]);
    assert data < WORD by { ByteShiftFits(i, b); }
    while data > 0
      invariant row.Length == l && IsWords(row[..]) && data < WORD
      invariant Reduce(G, W, Join(data, W, Value(row[..]))) == goal
      decreases data
    {
      var e := Degree(data);
      assert e < 32 by { DegreeFits(data); }
      ghost var before := row[..];
      ghost var sh := ShiftWords(Extended(gs[..], l), e + 1);
      ShiftedGenerator(gs[..], g, d, l, e);
      XorGenerator(gs, g, d, l, e, row);
      XorWordsValue(before, sh[..l]);
      ValueBound(before); ValueBound(sh[..l]);
      DivideStep(G, W, e, data, Shr(gs[0], 31 - e), Value(before), Value(sh[..l]));
      data := Xor(data, Shr(gs[0], 31 - e));
    }
    ValueBound(row[..]);
    ReduceSmall(G, W, Value(row[..]));
  }

  lemma {:induction false} ZeroRow(ws: seq<nat>)
    requires forall k | 0 <= k < |ws| :: ws[k] == 0
    ensures Value(ws) == 0 && IsWords(ws)
  {
    if ws != [] { ZeroRow(ws[1..]); }
  }

  lemma ByteShiftFits(i: nat, b: nat)
    requires i < 256 && b < 4
    ensures Join(i, 8 * b, 0) < WORD
  {
    hide Pow2;
    Powers(); Pow2Add(8, 8 * b); Pow2Monotone(8 + 8 * b, 32);
    HighLowBound(i, Pow2(8), 0, Pow2(8 * b));
  }

  lemma DegreeFits(x: nat)
    requires 0 < x < WORD
    ensures Degree(x) < 32
  {
    hide Pow2;
    Powers();
    if Degree(x) >= 32 { Pow2Monotone(32, Degree(x)); }
  }

  /** The inner loop over the words of the generator. */
  method XorGenerator(gs: array<nat>, ghost g: nat, d: nat, l: nat, e: nat, row: array<nat>)
    requires Packed(gs[..], g, d, l) && e < 32 && row.Length == l && row != gs
    requires gs.Length <= l + 1
    modifies row
    ensures row[..] == XorWords(old(row[..]), ShiftWords(Extended(gs[..], l), e + 1)[..l])
  {
    hide Value; hide Pow2; hide Xor; hide Shl; hide Shr;
    var ecclen := WordCount(d);
    ghost var sh := ShiftWords(Extended(gs[..], l), e + 1);
    ghost var was := row[..];
    var j := 0;
    while j < ecclen
      invariant j <= ecclen <= l && gs.Length >= ecclen
      invariant forall k | 0 <= k < j :: row[k] == Xor(was[k], sh[k])
      invariant forall k | j <= k < l :: row[k] == was[k]
    {
      var next := if j + 1 < gs.Length then gs[j + 1] else 0;
      var w := GeneratorWord(gs[j], j + 1 < gs.Length, next, e);
      row[j] := Xor(row[j], w);
      j := j + 1;
    }
    forall k | ecclen <= k < l ensures row[k] == Xor(was[k], sh[k]) {
      TailShiftsOut(gs[..], g, d, l, e + 1, k);
      XorZero(was[k]);
    }
    assert row[..] == XorWords(was, sh[..l]);
  }

  /** One word of the shifted generator. */
  method GeneratorWord(w: nat, more: bool, next: nat, e: nat) returns (r: nat)
    requires w < WORD && next < WORD && e < 32 && (more || next == 0)
    ensures r == ShiftedWord(w, next, e + 1)
  {
    hide Pow2; hide Shl; hide Shr; hide Or; hide ShiftedWord;
    var hi := if e < 31 then Shl(w, e + 1) else 0;
    var lo := if more then Shr(next, 31 - e) else 0;
    ShiftedOr(w, next, e + 1);
    Shr0(31 - e);
    r := Or(hi, lo);
  }

  lemma {:induction false} ShiftedOr(w: nat, next: nat, s: nat)
    requires w < WORD && next < WORD && 1 <= s <= 32
    ensures Or(if s < 32 then Shl(w, s) else 0, Shr(next, 32 - s)) == ShiftedWord(w, next, s)
  {
    hide Pow2; hide Shl; hide Shr; hide Or;
    SplitWord(w, s); SplitWord(next, s);
    if s == 32 { Powers(); }
    OrDisjoint(w % Pow2(32 - s), Shr(next, 32 - s), s);
  }

  /** All 1024 rows: tab[b, i] for byte i at position b. */
  method BuildTables(gs: array<nat>, ghost g: nat, d: nat, l: nat) returns (tab: array2<seq<nat>>)
    requires Packed(gs[..], g, d, l)
    ensures fresh(tab) && tab.Length0 == 4 && tab.Length1 == 256
    ensures forall b: nat, i: nat | b < 4 && i < 256 :: RowOk(Modulus(g, d, l), l, tab[b, i], b, i)
  {
    tab := new seq<nat>[4, 256]((_, _) => []);
    var i := 0;
    while i < 256
      invariant i <= 256 && Packed(gs[..], g, d, l)
      invariant forall c: nat, k: nat | c < 4 && k < i :: RowOk(Modulus(g, d, l), l, tab[c, k], c, k)
    {
      var b := 0;
      while b < 4
        invariant b <= 4 && Packed(gs[..], g, d, l)
        invariant forall c: nat, k: nat | c < 4 && k < i :: RowOk(Modulus(g, d, l), l, tab[c, k], c, k)
        invariant forall c: nat | c < b :: RowOk(Modulus(g, d, l), l, tab[c, i], c, i)
      {
        hide RowOk; hide Packed;
        var row := BuildRow(gs, g, d, l, b, i);
        tab[b, i] := row[..];
        b := b + 1;
      }
      i := i + 1;
    }
  }
}
