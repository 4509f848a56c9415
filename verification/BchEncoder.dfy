/** encode_bch and its helpers on the words of the parity register. */
module BchEncoder {
  import opened Bits
  import opened BinaryPoly
  import opened Words
  import opened BchGenerator
  import opened BchTables
  import opened BchStream

  /** The encoder's tables for the modulus G on rows of l words. */
  ghost predicate TablesOk(G: nat, l: nat, tab: array2<seq<nat>>)
    reads tab
  {
    && l > 0 && HasDegree(G, 32 * l)
    && tab.Length0 == 4 && tab.Length1 == 256
    && forall b: nat, i: nat | b < 4 && i < 256 :: RowOk(G, l, tab[b, i], b, i)
  }

  // ----- bytes of a word

  lemma {:induction false} WordBytes(w: nat)
    requires w < WORD
    ensures Shr(w, 24) < 256
    ensures w == Join(Join(Join(Shr(w, 24), 8, Shr(w, 16) % 256), 8, Shr(w, 8) % 256), 8, w % 256)
  {
    hide Pow2;
    Powers();
    FourBytes(w);
  }

  lemma FourBytes(w: nat)
    requires w < WORD
    ensures w / 0x100_0000 < 256
    ensures w == ((w / 0x100_0000 * 256 + w / 0x1_0000 % 256) * 256 + w / 256 % 256) * 256 + w % 256
  {
    var a, b, c := w / 256, w / 0x1_0000, w / 0x100_0000;
    assert w == 256 * a + w % 256 && a == 256 * b + a % 256 && b == 256 * c + b % 256;
  }

  lemma {:induction false} BytesAsXor(a: nat, b: nat, c: nat, d: nat)
    requires b < 256 && c < 256 && d < 256
    ensures Join(Join(Join(a, 8, b), 8, c), 8, d)
         == Xor(Xor(Xor(Join(d, 0, 0), Join(c, 8, 0)), Join(b, 16, 0)), Join(a, 24, 0))
  {
    hide Pow2; hide Xor;
    Powers();
    var x := Join(Join(Join(a, 8, b), 8, c), 8, d);
    JoinZero(d);
    hide Join;
    JoinIsXor(a, 8, b); JoinIsXor(Join(a, 8, b), 8, c); JoinIsXor(Join(Join(a, 8, b), 8, c), 8, d);
    XorJoinShift(Join(a, 8, 0), b, 8); JoinJoin(a, 8, 8);
    XorJoinShift(Xor(Join(a, 16, 0), Join(b, 8, 0)), c, 8);
    XorJoinShift(Join(a, 16, 0), Join(b, 8, 0), 8); JoinJoin(a, 16, 8); JoinJoin(b, 8, 8);
    var p, q, r := Join(a, 24, 0), Join(b, 16, 0), Join(c, 8, 0);
    assert x == Xor(Xor(Xor(p, q), r), d);
    XorComm(Xor(Xor(p, q), r), d); XorComm(Xor(p, q), r); XorComm(p, q);
    XorAssoc(d, r, Xor(q, p)); XorAssoc(Xor(d, r), q, p);
  }

  lemma JoinZero(d: nat)
    ensures Join(d, 0, 0) == d
  {
  }

  /** Four table rows together are the remainder for a whole word. */
  lemma {:induction false} RowsForWord(G: nat, W: nat, a: nat, b: nat, c: nat, d: nat)
    requires HasDegree(G, W) && W > 0 && b < 256 && c < 256 && d < 256
    ensures Reduce(G, W, Join(Join(Join(Join(a, 8, b), 8, c), 8, d), W, 0))
         == Xor(Xor(Xor(Reduce(G, W, Join(Join(d, 0, 0), W, 0)), Reduce(G, W, Join(Join(c, 8, 0), W, 0))),
                    Reduce(G, W, Join(Join(b, 16, 0), W, 0))),
                Reduce(G, W, Join(Join(a, 24, 0), W, 0)))
  {
    hide Reduce; hide Xor; hide Join; hide Pow2; hide HasDegree;
    BytesAsXor(a, b, c, d);
    var p, q, r, s := Join(a, 24, 0), Join(b, 16, 0), Join(c, 8, 0), Join(d, 0, 0);
    XorJoinShift(Xor(Xor(s, r), q), p, W); XorJoinShift(Xor(s, r), q, W); XorJoinShift(s, r, W);
    var P, Q, R, S := Join(p, W, 0), Join(q, W, 0), Join(r, W, 0), Join(s, W, 0);
    ReduceXor(G, W, Xor(Xor(S, R), Q), P); ReduceXor(G, W, Xor(S, R), Q); ReduceXor(G, W, S, R);
  }

  // ----- one byte

  /** The register row shifted by a byte with a table row xored in. */
  method ByteStep(ecc: array<nat>, row: seq<nat>)
    requires ecc.Length == |row| > 0 && IsWords(ecc[..])
    modifies ecc
    ensures ecc[..] == XorWords(ShiftWords(old(ecc[..]), 8), row)
  {
    hide Xor; hide Shl; hide Shr; hide Pow2; hide Or; hide ShiftWords; hide XorWords;
    ghost var was := ecc[..];
    ghost var sh := ShiftWords(was, 8);
    var l := ecc.Length - 1;
    var i := 0;
    while i < l
      invariant i <= l
      invariant forall k | 0 <= k < i :: ecc[k] == Xor(sh[k], row[k])
      invariant forall k | i <= k <= l :: ecc[k] == was[k]
    {
      ShiftedOr(ecc[i], ecc[i + 1], 8);
      assert sh[i] == ShiftedWord(was[i], was[i + 1], 8);
      ecc[i] := Xor(Or(Shl(ecc[i], 8), Shr(ecc[i + 1], 24)), row[i]);
      i := i + 1;
    }
    Shr0(24);
    ShiftWordsLast(was, 8);
    ecc[l] := Xor(Shl(ecc[l], 8), row[l]);
    XorWordsByIndex(sh, row, ecc[..]);
  }

  lemma {:induction false} ByteStepValue(G: nat, l: nat, ws: seq<nat>, row: seq<nat>, byte: nat)
    requires l > 0 && HasDegree(G, 32 * l) && |ws| == l && IsWords(ws) && byte < 256
    requires RowOk(G, l, row, 0, Xor(Shr(ws[0], 24), byte))
    ensures IsWords(XorWords(ShiftWords(ws, 8), row))
    ensures Value(XorWords(ShiftWords(ws, 8), row)) == Feed(G, 32 * l, Value(ws), byte, 8)
  {
    hide Xor; hide Shl; hide Shr; hide Pow2; hide Value; hide ShiftWords; hide Reduce; hide Feed; hide HasDegree;
    var sh := ShiftWords(ws, 8);
    ShiftWordsValue(ws, 8); ShiftWordsAreWords(ws, 8);
    ValueBound(sh);
    XorWordsValue(sh, row);
    var hi := Shr(ws[0], 24);
    JoinZero(Xor(hi, byte));
    FeedByTable(G, 32 * l, Value(ws), byte, 8, hi, Value(sh));
  }

  lemma {:induction false} TopByte(w: nat, byte: nat)
    requires w < WORD && byte < 256
    ensures Xor(Shr(w, 24), byte) < 256
  {
    hide Xor; hide Pow2;
    Powers(); WordBytes(w);
    XorBound(Shr(w, 24), byte, 8);
  }

  /** encode_bch_unaligned: any number of bytes, one at a time. */
  method EncodeUnaligned(ghost G: nat, l: nat, tab: array2<seq<nat>>, data: seq<nat>, ecc: array<nat>)
    requires TablesOk(G, l, tab) && IsBytes(data) && ecc.Length == l && IsWords(ecc[..])
    modifies ecc
    ensures IsWords(ecc[..])
    ensures Value(ecc[..]) == Feed(G, 32 * l, old(Value(ecc[..])), Number(data), 8 * |data|)
  {
    hide Value; hide Number; hide Feed; hide RowOk; hide HasDegree; hide Xor; hide Shr; hide Pow2; hide Join;
    ghost var v, W := Value(ecc[..]), 32 * l;
    ValueBound(ecc[..]);
    FeedNothing(G, W, v);
    NumberEmpty();
    assert data[..0] == [];
    var k := 0;
    while k < |data|
      invariant k <= |data| && IsWords(ecc[..])
      invariant Value(ecc[..]) == Feed(G, W, v, Number(data[..k]), 8 * k)
    {
      TopByte(ecc[0], data[k]);
      var idx := Xor(Shr(ecc[0], 24), data[k]);
      ByteStepValue(G, l, ecc[..], tab[0, idx], data[k]);
      assert |tab[0, idx]| == l by { RowLength(G, l, tab[0, idx], 0, idx); }
      ByteStep(ecc, tab[0, idx]);
      FeedByte(G, W, v, data, k);
      k := k + 1;
    }
    assert data[..k] == data;
  }

  lemma RowLength(G: nat, l: nat, row: seq<nat>, b: nat, i: nat)
    requires RowOk(G, l, row, b, i)
    ensures |row| == l && IsWords(row)
  {
  }

  lemma NumberEmpty()
    ensures Number([]) == 0
  {
  }

  lemma {:induction false} FeedByte(G: nat, W: nat, v: nat, data: seq<nat>, k: nat)
    requires HasDegree(G, W) && W > 0 && k < |data| && IsBytes(data)
    ensures Feed(G, W, Feed(G, W, v, Number(data[..k]), 8 * k), data[k], 8)
         == Feed(G, W, v, Number(data[..k + 1]), 8 * (k + 1))
  {
    hide Feed; hide HasDegree; hide Number; hide Pow2;
    Powers();
    FeedCompose(G, W, v, Number(data[..k]), 8 * k, data[k], 8);
    assert data[..k + 1] == data[..k] + [data[k]];
    NumberSnoc(data[..k], data[k]);
  }

  // ----- one word

  /** Four bytes as htobe32 leaves them in a register: the first byte on top. */
  function BigEndian(a: nat, b: nat, c: nat, d: nat): nat {
    Join(Join(Join(a, 8, b), 8, c), 8, d)
  }

  method WordStep(r: array<nat>, p0: seq<nat>, p1: seq<nat>, p2: seq<nat>, p3: seq<nat>)
    requires r.Length == |p0| == |p1| == |p2| == |p3| > 0 && IsWords(r[..])
    modifies r
    ensures r[..] == XorWords(XorWords(XorWords(XorWords(ShiftWords(old(r[..]), 32), p0), p1), p2), p3)
  {
    hide Xor; hide Pow2; hide XorWords; hide ShiftWords; hide ShiftedWord;
    ghost var was := r[..];
    ghost var sh := ShiftWords(was, 32);
    ShiftRowByWord(was);
    var l := r.Length - 1;
    var i := 0;
    while i < l
      invariant i <= l
      invariant forall k | 0 <= k < i :: r[k] == Xor(Xor(Xor(Xor(sh[k], p0[k]), p1[k]), p2[k]), p3[k])
      invariant forall k | i <= k <= l :: r[k] == was[k]
    {
      r[i] := Xor(Xor(Xor(Xor(r[i + 1], p0[i]), p1[i]), p2[i]), p3[i]);
      i := i + 1;
    }
    XorZero(p0[l]);
    r[l] := Xor(Xor(Xor(p0[l], p1[l]), p2[l]), p3[l]);
    XorWordsByIndex(XorWords(XorWords(XorWords(sh, p0), p1), p2), p3, r[..]);
  }

  lemma {:induction false} ShiftRowByWord(ws: seq<nat>)
    requires IsWords(ws)
    ensures forall k | 0 <= k < |ws| :: ShiftWords(ws, 32)[k] == if k + 1 < |ws| then ws[k + 1] else 0
  {
    hide ShiftedWord;
    forall k | 0 <= k < |ws| ensures ShiftWords(ws, 32)[k] == if k + 1 < |ws| then ws[k + 1] else 0 {
      ShiftByWord(ws[k], if k + 1 < |ws| then ws[k + 1] else 0);
    }
  }

  lemma {:induction false} ShiftByWord(w: nat, next: nat)
    requires w < WORD && next < WORD
    ensures ShiftedWord(w, next, 32) == next
  {
    hide Pow2;
    SplitWord(w, 32);
    Powers(); PowOne();
    assert w % Pow2(0) == 0;
    assert next / Pow2(0) == next;
  }

  lemma {:induction false} WordStepValue(G: nat, l: nat, ws: seq<nat>, x: nat,
                                         p0: seq<nat>, p1: seq<nat>, p2: seq<nat>, p3: seq<nat>)
    requires l > 0 && HasDegree(G, 32 * l) && |ws| == l && IsWords(ws) && x < WORD
    requires var w := Xor(ws[0], x);
      && w < WORD
      && RowOk(G, l, p0, 0, w % 256) && RowOk(G, l, p1, 1, Shr(w, 8) % 256)
      && RowOk(G, l, p2, 2, Shr(w, 16) % 256) && RowOk(G, l, p3, 3, Shr(w, 24))
    ensures var out := XorWords(XorWords(XorWords(XorWords(ShiftWords(ws, 32), p0), p1), p2), p3);
      IsWords(out) && Value(out) == Feed(G, 32 * l, Value(ws), x, 32)
  {
    hide Xor; hide Shl; hide Shr; hide Pow2; hide Value; hide ShiftWords; hide Reduce; hide Feed; hide HasDegree; hide Join;
    var sh, w, W := ShiftWords(ws, 32), Xor(ws[0], x), 32 * l;
    ShiftWordsValue(ws, 32); ShiftWordsAreWords(ws, 32);
    ValueBound(sh);
    XorWordsValue(sh, p0);
    var a := XorWords(sh, p0);
    XorWordsValue(a, p1);
    var b := XorWords(a, p1);
    XorWordsValue(b, p2);
    var c := XorWords(b, p2);
    XorWordsValue(c, p3);
    ShrZero(ws[0]);
    JoinOf(Value(ws), 32, Shr(ws[0], 0), W, Value(sh));
    FeedByTable(G, W, Value(ws), x, 32, ws[0], Value(sh));
    WordBytes(w);
    RowsForWord(G, W, Shr(w, 24), Shr(w, 16) % 256, Shr(w, 8) % 256, w % 256);
    FourRows(Value(sh), Value(p0), Value(p1), Value(p2), Value(p3));
  }

  lemma JoinOf(v: nat, s: nat, hi: nat, W: nat, lo: nat)
    requires v * Pow2(s) == hi * Pow2(W) + lo
    ensures Join(v, s, 0) == Join(hi, W, lo)
  {
  }

  lemma ShrZero(w: nat)
    ensures Shr(w, 0) == w
  {
  }

  lemma {:induction false} FourRows(s: nat, a: nat, b: nat, c: nat, d: nat)
    ensures Xor(Xor(Xor(Xor(s, a), b), c), d) == Xor(s, Xor(Xor(Xor(a, b), c), d))
  {
    hide Xor;
    XorAssoc(s, a, b); XorAssoc(s, Xor(a, b), c); XorAssoc(s, Xor(Xor(a, b), c), d);
  }

  /** The aligned middle: one 32-bit word of data per round. */
  method EncodeWords(ghost G: nat, l: nat, tab: array2<seq<nat>>, data: seq<nat>, r: array<nat>)
    requires TablesOk(G, l, tab) && IsBytes(data) && |data| % 4 == 0 && r.Length == l && IsWords(r[..])
    modifies r
    ensures IsWords(r[..])
    ensures Value(r[..]) == Feed(G, 32 * l, old(Value(r[..])), Number(data), 8 * |data|)
  {
    hide Value; hide Number; hide Feed; hide HasDegree; hide BigEndian; hide RowOk;
    ghost var v, W := Value(r[..]), 32 * l;
    ValueBound(r[..]);
    FeedNothing(G, W, v);
    NumberEmpty();
    assert data[..0] == [];
    var k := 0;
    while k < |data|
      invariant k <= |data| && k % 4 == 0 && IsWords(r[..])
      invariant Value(r[..]) == Feed(G, W, v, Number(data[..k]), 8 * k)
    {
      var x := BigEndian(data[k], data[k + 1], data[k + 2], data[k + 3]);
      BigEndianFits(data[k], data[k + 1], data[k + 2], data[k + 3]);
      EncodeWord(G, l, tab, x, r);
      FeedWord(G, W, v, data, k);
      k := k + 4;
    }
    assert data[..k] == data;
  }

  /** One word of data through the four tables. */
  method EncodeWord(ghost G: nat, l: nat, tab: array2<seq<nat>>, x: nat, r: array<nat>)
    requires TablesOk(G, l, tab) && x < WORD && r.Length == l && IsWords(r[..])
    modifies r
    ensures IsWords(r[..]) && Value(r[..]) == Feed(G, 32 * l, old(Value(r[..])), x, 32)
  {
    hide Value; hide Feed; hide RowOk; hide HasDegree; hide Xor; hide Shr; hide Pow2;
    var w := Xor(r[0], x);
    WordIndexFits(r[0], x);
    var p0, p1, p2, p3 := tab[0, w % 256], tab[1, Shr(w, 8) % 256], tab[2, Shr(w, 16) % 256], tab[3, Shr(w, 24)];
    RowLength(G, l, p0, 0, w % 256); RowLength(G, l, p1, 1, Shr(w, 8) % 256);
    RowLength(G, l, p2, 2, Shr(w, 16) % 256); RowLength(G, l, p3, 3, Shr(w, 24));
    WordStepValue(G, l, r[..], x, p0, p1, p2, p3);
    WordStep(r, p0, p1, p2, p3);
  }

  lemma {:induction false} BigEndianFits(a: nat, b: nat, c: nat, d: nat)
    requires a < 256 && b < 256 && c < 256 && d < 256
    ensures BigEndian(a, b, c, d) < WORD
  {
    hide Pow2;
    Powers();
  }

  lemma {:induction false} WordIndexFits(w: nat, x: nat)
    requires w < WORD && x < WORD
    ensures Xor(w, x) < WORD && Shr(Xor(w, x), 24) < 256
  {
    hide Pow2; hide Xor;
    Powers();
    XorBound(w, x, 32);
    WordBytes(Xor(w, x));
  }

  lemma {:induction false} FeedWord(G: nat, W: nat, v: nat, data: seq<nat>, k: nat)
    requires HasDegree(G, W) && W > 0 && k + 4 <= |data| && IsBytes(data)
    ensures Feed(G, W, Feed(G, W, v, Number(data[..k]), 8 * k), BigEndian(data[k], data[k + 1], data[k + 2], data[k + 3]), 32)
         == Feed(G, W, v, Number(data[..k + 4]), 8 * (k + 4))
  {
    hide Feed; hide HasDegree; hide Number; hide Pow2;
    BigEndianFits(data[k], data[k + 1], data[k + 2], data[k + 3]);
    Powers();
    FeedCompose(G, W, v, Number(data[..k]), 8 * k, BigEndian(data[k], data[k + 1], data[k + 2], data[k + 3]), 32);
    NumberFour(data[..k], data[k], data[k + 1], data[k + 2], data[k + 3]);
    assert data[..k + 4] == data[..k] + [data[k], data[k + 1], data[k + 2], data[k + 3]];
  }

  lemma {:induction false} NumberFour(bs: seq<nat>, a: nat, b: nat, c: nat, d: nat)
    ensures Number(bs + [a, b, c, d]) == Join(Number(bs), 32, BigEndian(a, b, c, d))
  {
    hide Number; hide Pow2;
    Powers();
    assert bs + [a, b, c, d] == bs + [a] + [b] + [c] + [d];
    NumberSnoc(bs, a); NumberSnoc(bs + [a], b); NumberSnoc(bs + [a] + [b], c); NumberSnoc(bs + [a] + [b] + [c], d);
  }

  // ----- any split

  /** encode_bch on the register: an unaligned head up to the next word boundary (align = address
      mod 4), whole words, and a tail.  The result does not depend on the alignment. */
  method EncodeRegister(ghost G: nat, l: nat, tab: array2<seq<nat>>, data: seq<nat>, align: nat, ecc: array<nat>)
    requires TablesOk(G, l, tab) && IsBytes(data) && align < 4 && ecc.Length == l && IsWords(ecc[..])
    modifies ecc
    ensures IsWords(ecc[..])
    ensures Value(ecc[..]) == Feed(G, 32 * l, old(Value(ecc[..])), Number(data), 8 * |data|)
  {
    hide Value; hide Number; hide Feed; hide RowOk; hide HasDegree; hide Pow2;
    ghost var v, W := Value(ecc[..]), 32 * l;
    ValueBound(ecc[..]);
    FeedNothing(G, W, v);
    NumberEmpty();
    var head := 0;
    if align != 0 {
      head := if |data| < 4 - align then |data| else 4 - align;
      EncodeUnaligned(G, l, tab, data[..head], ecc);
    }
    assert Value(ecc[..]) == Feed(G, W, v, Number(data[..head]), 8 * head) by {
      if head == 0 { assert data[..head] == []; }
    }
    var mid := 4 * ((|data| - head) / 4);
    var r := new nat[l](i requires 0 <= i < l reads ecc => ecc[i]);
    assert r[..] == ecc[..];
    ghost var w := Value(r[..]);
    EncodeWords(G, l, tab, data[head..head + mid], r);
    assert Value(r[..]) == Feed(G, W, w, Number(data[head..head + mid]), 8 * mid);
    assert w == Feed(G, W, v, Number(data[..head]), 8 * head);
    FeedPart(G, W, v, data, head, head + mid);
    assert 8 * (head + mid - head) == 8 * mid;
    ghost var rs := r[..];
    assert Value(rs) == Feed(G, W, v, Number(data[..head + mid]), 8 * (head + mid));
    forall i | 0 <= i < l { ecc[i] := r[i]; }
    assert ecc[..] == rs;
    if head + mid == |data| {
      assert data[..head + mid] == data;
    } else {
      EncodeUnaligned(G, l, tab, data[head + mid..], ecc);
      assert data[head + mid..] == data[head + mid..|data|];
      FeedPart(G, W, v, data, head + mid, |data|);
    }
    assert data[..|data|] == data;
  }

  lemma {:induction false} FeedPart(G: nat, W: nat, v: nat, data: seq<nat>, i: nat, j: nat)
    requires HasDegree(G, W) && W > 0 && i <= j <= |data| && IsBytes(data)
    ensures Feed(G, W, Feed(G, W, v, Number(data[..i]), 8 * i), Number(data[i..j]), 8 * (j - i))
         == Feed(G, W, v, Number(data[..j]), 8 * j)
  {
    hide Feed; hide HasDegree; hide Number; hide Pow2; hide Join;
    NumberBound(data[i..j]);
    FeedCompose(G, W, v, Number(data[..i]), 8 * i, Number(data[i..j]), 8 * (j - i));
    NumberAppend(data[..i], data[i..j]);
    assert data[..j] == data[..i] + data[i..j];
  }

  lemma {:induction false} NumberAppend(a: seq<nat>, b: seq<nat>)
    ensures Number(a + b) == Join(Number(a), 8 * |b|, Number(b))
  {
    if b == [] {
      assert a + b == a;
    } else {
      var k := |b| - 1;
      NumberAppend(a, b[..k]);
      assert (a + b)[..|a| + k] == a + b[..k];
      Powers();
      hide Pow2;
      Pow2Add(8 * k, 8);
      assert (Number(a) * Pow2(8 * k)) * 256 == Number(a) * (Pow2(8 * k) * Pow2(8));
    }
  }
}
