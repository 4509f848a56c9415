/** Rows of 32-bit words and strings of bytes, most significant first, as single numbers. */
module Words {
  import opened Bits

  const WORD := 0x1_0000_0000

  ghost predicate IsWords(ws: seq<nat>) {
    forall i | 0 <= i < |ws| :: ws[i] < WORD
  }

  ghost predicate IsBytes(bs: seq<nat>) {
    forall i | 0 <= i < |bs| :: bs[i] < 256
  }

  ghost function Value(ws: seq<nat>): nat {
    if ws == [] then 0 else ws[0] * Pow2(32 * (|ws| - 1)) + Value(ws[1..])
  }

  ghost function Number(bs: seq<nat>): nat {
    if bs == [] then 0 else Number(bs[..|bs| - 1]) * 256 + bs[|bs| - 1]
  }

  lemma Powers()
    ensures Pow2(8) == 0x100 && Pow2(16) == 0x1_0000 && Pow2(24) == 0x100_0000 && Pow2(32) == WORD
    ensures Pow2(31) == 0x8000_0000
  {
    Pow2Add(4, 4); Pow2Add(8, 8); Pow2Add(8, 16); Pow2Add(16, 16); Pow2Add(15, 16); Pow2Add(7, 8);
    assert Pow2(4) == 16;
  }

  lemma {:induction false} ValueBound(ws: seq<nat>)
    requires IsWords(ws)
    ensures Value(ws) < Pow2(32 * |ws|)
  {
    if ws != [] {
      ValueBound(ws[1..]);
      Powers(); Pow2Add(32, 32 * (|ws| - 1));
      HighLowBound(ws[0], WORD, Value(ws[1..]), Pow2(32 * (|ws| - 1)));
    }
  }

  lemma HighLowBound(a: nat, m: nat, b: nat, p: nat)
    requires a < m && b < p
    ensures a * p + b < m * p
  {
    assert a * p <= (m - 1) * p;
  }

  lemma {:induction false} ValueSnoc(ws: seq<nat>, w: nat)
    ensures Value(ws + [w]) == Value(ws) * WORD + w
  {
    Powers();
    if ws == [] {
      assert (ws + [w])[1..] == [];
    } else {
      ValueSnoc(ws[1..], w);
      assert (ws + [w])[1..] == ws[1..] + [w];
      Pow2Add(32, 32 * (|ws| - 1));
      var p := Pow2(32 * (|ws| - 1));
      assert ws[0] * (WORD * p) == (ws[0] * p) * WORD;
    }
  }

  lemma {:induction false} ValueSplit(ws: seq<nat>, k: nat)
    requires k <= |ws|
    ensures Value(ws) == Join(Value(ws[..k]), 32 * (|ws| - k), Value(ws[k..]))
    decreases |ws| - k
  {
    hide Pow2; hide Value;
    if k == |ws| {
      assert ws[..k] == ws && ws[k..] == [];
      assert Value([]) == 0 && Pow2(0) == 1 by { EmptyValue(); }
    } else {
      ValueSplit(ws, k + 1);
      assert ws[..k + 1] == ws[..k] + [ws[k]];
      ValueSnoc(ws[..k], ws[k]);
      assert ws[k..] == [ws[k]] + ws[k + 1..];
      ValueCons(ws[k], ws[k + 1..]);
      var e := 32 * (|ws| - k - 1);
      Powers(); Pow2Add(32, e);
      SplitSum(Value(ws[..k]), ws[k], Value(ws[k + 1..]), Pow2(e));
    }
  }

  lemma EmptyValue()
    ensures Value([]) == 0 && Pow2(0) == 1
  {
  }

  lemma SplitSum(a: nat, w: nat, b: nat, p: nat)
    ensures (a * WORD + w) * p + b == a * (WORD * p) + (w * p + b)
  {
  }

  // ----- exclusive or, word by word

  ghost function XorWords(a: seq<nat>, b: seq<nat>): (c: seq<nat>)
    requires |a| == |b|
    ensures |c| == |a| && forall i | 0 <= i < |a| :: c[i] == Xor(a[i], b[i])
  {
    if a == [] then [] else [Xor(a[0], b[0])] + XorWords(a[1..], b[1..])
  }

  lemma XorWordsByIndex(a: seq<nat>, b: seq<nat>, c: seq<nat>)
    requires |a| == |b| == |c| && forall i | 0 <= i < |a| :: c[i] == Xor(a[i], b[i])
    ensures c == XorWords(a, b)
  {
    hide Xor;
  }

  lemma {:induction false} XorWordsValue(a: seq<nat>, b: seq<nat>)
    requires |a| == |b| && IsWords(a) && IsWords(b)
    ensures IsWords(XorWords(a, b)) && Value(XorWords(a, b)) == Xor(Value(a), Value(b))
  {
    hide Xor; hide Pow2;
    if a == [] {
      XorZero(0);
    } else {
      XorWordsValue(a[1..], b[1..]);
      Powers();
      XorBound(a[0], b[0], 32);
      ValueBound(a[1..]); ValueBound(b[1..]);
      XorSplit(a[0], Value(a[1..]), b[0], Value(b[1..]), 32 * (|a| - 1));
    }
  }

  // ----- shifting a row left by s bits, the top s bits falling out

  function Shr(w: nat, s: nat): nat {
    DivNonneg(w, Pow2(s)); w / Pow2(s)
  }

  lemma DivNonneg(a: nat, b: nat)
    requires b > 0
    ensures a / b >= 0
  {
  }

  /** 32-bit shift left. */
  function Shl(w: nat, s: nat): nat {
    (w * Pow2(s)) % WORD
  }

  /** The word that replaces w when the row is shifted left by s and the next word is next. */
  function ShiftedWord(w: nat, next: nat, s: nat): nat
    requires s <= 32
  {
    Shl(w, s) + Shr(next, 32 - s)
  }

  ghost function ShiftWords(ws: seq<nat>, s: nat): (r: seq<nat>)
    requires s <= 32
    ensures |r| == |ws|
    ensures forall i | 0 <= i < |ws| :: r[i] == ShiftedWord(ws[i], if i + 1 < |ws| then ws[i + 1] else 0, s)
  {
    seq(|ws|, i requires 0 <= i < |ws| => ShiftedWord(ws[i], if i + 1 < |ws| then ws[i + 1] else 0, s))
  }

  lemma ShiftWordsLast(ws: seq<nat>, s: nat)
    requires s <= 32 && ws != []
    ensures ShiftWords(ws, s)[|ws| - 1] == ShiftedWord(ws[|ws| - 1], 0, s)
  {
    hide ShiftedWord;
  }

  lemma Distribute(x: nat, r: nat, a: nat)
    ensures (x + r) * a == x * a + r * a
  {
  }

  lemma Associate(q: nat, p: nat, a: nat)
    ensures (q * p) * a == q * (p * a)
  {
  }

  lemma SplitProduct(w: nat, a: nat, p: nat, q: nat, r: nat)
    requires a > 0 && p > 0 && w == q * p + r && r < p
    ensures (w * a) / (p * a) == q && (w * a) % (p * a) == r * a && r * a <= p * a - a
  {
    Distribute(q * p, r, a);
    Associate(q, p, a);
    MulMonotone(r, p - 1, a);
    Distribute(p - 1, 1, a);
    DivModUnique(w * a, q, r * a, p * a);
  }

  lemma {:induction false} SplitWord(w: nat, s: nat)
    requires s <= 32 && w < WORD
    ensures w * Pow2(s) == Shr(w, 32 - s) * WORD + Shl(w, s)
    ensures Shl(w, s) == (w % Pow2(32 - s)) * Pow2(s)
    ensures Shl(w, s) <= WORD - Pow2(s) && Shr(w, 32 - s) < Pow2(s)
  {
    hide Pow2;
    var a, p := Pow2(s), Pow2(32 - s);
    Powers(); Pow2Add(32 - s, s);
    var q, r := w / p, w % p;
    SplitProduct(w, a, p, q, r);
    MulMonotone(a, q, p);
  }

  lemma {:induction false} ShiftWordsCons(ws: seq<nat>, s: nat)
    requires s <= 32 && |ws| > 1
    ensures ShiftWords(ws, s) == [ShiftedWord(ws[0], ws[1], s)] + ShiftWords(ws[1..], s)
  {
    hide ShiftedWord;
    var r, t := ShiftWords(ws, s), ws[1..];
    forall i | 0 < i < |r| ensures r[i] == ShiftWords(t, s)[i - 1] {
      assert t[i - 1] == ws[i];
    }
  }

  lemma {:induction false} ShiftWordsAreWords(ws: seq<nat>, s: nat)
    requires s <= 32 && IsWords(ws)
    ensures IsWords(ShiftWords(ws, s))
  {
    hide Pow2; hide Shl; hide Shr;
    Shr0(32 - s); Powers();
    forall i | 0 <= i < |ws| ensures ShiftWords(ws, s)[i] < WORD {
      SplitWord(ws[i], s);
      if i + 1 < |ws| { SplitWord(ws[i + 1], s); }
    }
  }

  lemma {:induction false} ShiftWordsValue(ws: seq<nat>, s: nat)
    requires s <= 32 && IsWords(ws) && ws != []
    ensures Value(ws) * Pow2(s) == Shr(ws[0], 32 - s) * Pow2(32 * |ws|) + Value(ShiftWords(ws, s))
  {
    hide Pow2; hide Shl; hide Shr; hide Value; hide ShiftWords;
    var w, t := ws[0], ws[1..];
    assert ws == [w] + t;
    if t == [] {
      Powers(); SplitWord(w, s); Shr0(32 - s);
      assert ShiftWords(ws, s) == [Shl(w, s)];
      assert ws == [w] && 32 * |ws| == 32;
      ValueOne(w); ValueOne(Shl(w, s));
    } else {
      ShiftWordsValue(t, s);
      ShiftWordsCons(ws, s);
      var c := Shr(t[0], 32 - s);
      var p := Pow2(32 * |t|);
      assert Pow2(32 * |ws|) == WORD * p by { Powers(); Pow2Add(32, 32 * |t|); }
      ValueCons(w, t);
      ValueCons(Shl(w, s) + c, ShiftWords(t, s));
      ShiftStep(w, c, Value(t), Value(ShiftWords(t, s)), s, p);
    }
  }

  lemma ValueCons(w: nat, t: seq<nat>)
    ensures Value([w] + t) == w * Pow2(32 * |t|) + Value(t)
  {
    assert ([w] + t)[1..] == t;
  }

  lemma ValueOne(w: nat)
    ensures Value([w]) == w
  {
    assert [w][1..] == [];
  }

  lemma Shr0(s: nat)
    ensures Shr(0, s) == 0
  {
    DivModUnique(0, 0, 0, Pow2(s));
  }

  lemma {:induction false} ShiftStep(w: nat, c: nat, vt: nat, vr: nat, s: nat, p: nat)
    requires s <= 32 && w < WORD
    requires vt * Pow2(s) == c * p + vr
    ensures (w * p + vt) * Pow2(s) == Shr(w, 32 - s) * (WORD * p) + ((Shl(w, s) + c) * p + vr)
  {
    hide Pow2; hide Shl; hide Shr;
    SplitWord(w, s);
    var a, h, l := Pow2(s), Shr(w, 32 - s), Shl(w, s);
    assert (w * p + vt) * a == (w * a) * p + vt * a;
    assert (h * WORD + l) * p == h * (WORD * p) + l * p;
    assert (l + c) * p == l * p + c * p;
  }

  // ----- bytes

  lemma {:induction false} NumberSnoc(bs: seq<nat>, b: nat)
    ensures Number(bs + [b]) == Number(bs) * 256 + b
  {
    var s := bs + [b];
    assert s[..|s| - 1] == bs;
  }

  lemma {:induction false} NumberBound(bs: seq<nat>)
    requires IsBytes(bs)
    ensures Number(bs) < Pow2(8 * |bs|)
  {
    if bs != [] {
      NumberBound(bs[..|bs| - 1]);
      Powers(); Pow2Add(8 * (|bs| - 1), 8);
    }
  }

  /** Changing bit b of byte k changes exactly one bit of the number. */
  lemma {:induction false} NumberFlip(bs: seq<nat>, k: nat, b: nat)
    requires IsBytes(bs) && k < |bs| && b < 8
    ensures Xor(bs[k], Pow2(b)) < 256
    ensures Number(bs[k := Xor(bs[k], Pow2(b))]) == Xor(Number(bs), Pow2(8 * (|bs| - 1 - k) + b))
  {
    hide Xor;
    Powers();
    Pow2Strict(b, 8);
    XorBound(bs[k], Pow2(b), 8);
    var last := |bs| - 1;
    var x := Xor(bs[k], Pow2(b));
    var cs := bs[k := x];
    var n := Number(bs[..last]);
    if k == last {
      assert cs[..last] == bs[..last];
      XorSplit(n, bs[k], 0, Pow2(b), 8);
      XorZero(n);
    } else {
      assert cs[..last] == bs[..last][k := x];
      NumberFlip(bs[..last], k, b);
      var e := 8 * (last - 1 - k) + b;
      XorSplit(n, bs[last], Pow2(e), 0, 8);
      XorZero(bs[last]);
      Pow2Add(e, 8);
      assert cs[last] == bs[last];
    }
  }

  lemma {:induction false} NumberXor(a: seq<nat>, b: seq<nat>, c: seq<nat>)
    requires |a| == |b| == |c| && IsBytes(a) && IsBytes(b)
    requires forall i | 0 <= i < |a| :: c[i] == Xor(a[i], b[i])
    ensures Number(c) == Xor(Number(a), Number(b)) && IsBytes(c)
  {
    hide Xor;
    if a == [] {
      XorZero(0);
    } else {
      var l := |a| - 1;
      NumberXor(a[..l], b[..l], c[..l]);
      Powers();
      XorBound(a[l], b[l], 8);
      XorSplit(Number(a[..l]), a[l], Number(b[..l]), b[l], 8);
      forall i | 0 <= i < |c| ensures c[i] < 256 { if i < l { assert c[..l][i] == c[i]; } }
    }
  }
}
