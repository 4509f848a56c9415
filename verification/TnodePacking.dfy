/** Level-0 tnodes: sixteen chunk numbers packed at any even width into 32-bit words, some of them across
    two words; and the width chosen at mount.
 */
module TnodePacking {
  import opened Bits
  import opened Division

  // ----- 32-bit words, bit by bit

  /** Bit i of the word is element i. */
  type Word = s: seq<bool> | |s| == 32 witness seq(32, _ => false)

  function And(x: Word, y: Word): Word { seq(32, i requires 0 <= i < 32 => x[i] && y[i]) }

  function WordOr(x: Word, y: Word): Word { seq(32, i requires 0 <= i < 32 => x[i] || y[i]) }

  function Not(x: Word): Word { seq(32, i requires 0 <= i < 32 => !x[i]) }

  function Shl(x: Word, n: nat): Word { seq(32, i requires 0 <= i < 32 => i >= n && x[i - n]) }

  function Shr(x: Word, n: nat): Word { seq(32, i requires 0 <= i < 32 => i + n < 32 && x[i + n]) }

  /** tnode_mask: (1 << width) - 1. */
  function Ones(n: nat): Word { seq(32, i requires 0 <= i < 32 => i < n) }

  /** The number whose bits are s, lowest first. */
  function Number(s: seq<bool>): nat {
    if s == [] then 0 else (if s[0] then 1 else 0) + 2 * Number(s[1..])
  }

  /** The k lowest bits of n. */
  function Digits(n: nat, k: nat): (s: seq<bool>)
    ensures |s| == k
  {
    if k == 0 then [] else [n % 2 == 1] + Digits(n / 2, k - 1)
  }

  lemma {:induction false} NumberDigits(n: nat, k: nat)
    ensures Number(Digits(n, k)) == n % Pow2(k)
  {
    if k > 0 {
      NumberDigits(n / 2, k - 1);
      var p := Pow2(k - 1);
      assert Digits(n, k)[1..] == Digits(n / 2, k - 1);
      DoubleMod(n, p);
    }
  }

  lemma DoubleMod(n: nat, p: nat)
    requires p > 0
    ensures n % (2 * p) == n % 2 + 2 * (n / 2 % p)
  {
    var a := n / 2;
    var q := a / p;
    Remainder(a, p);
    assert q * (2 * p) == 2 * (q * p);
    DivModUnique(n, q, n % 2 + 2 * (a % p), 2 * p);
  }

  lemma {:induction false} NumberCut(n: nat, k: nat, w: nat)
    requires w <= k
    ensures Digits(n, k)[..w] == Digits(n, w)
  {
    if w > 0 {
      NumberCut(n / 2, k - 1, w - 1);
      assert Digits(n, k)[..w] == [n % 2 == 1] + Digits(n / 2, k - 1)[..w - 1];
    }
  }

  /** The mask is the number 2^n - 1. */
  lemma {:induction false} OnesIsMask(n: nat)
    requires n <= 32
    ensures Number(Ones(n)) == Pow2(n) - 1
  {
    OnesPrefix(Ones(n), n);
  }

  lemma {:induction false} OnesPrefix(s: seq<bool>, n: nat)
    requires n <= |s| && forall i | 0 <= i < |s| :: s[i] == (i < n)
    ensures Number(s) == Pow2(n) - 1
  {
    if s != [] { OnesPrefix(s[1..], if n > 0 then n - 1 else 0); }
  }

  // ----- fields of the packed map

  /** Bit g of the map. */
  function MapBit(m: seq<Word>, g: nat): bool {
    if g / 32 < |m| then m[g / 32][g % 32] else false
  }

  function FieldBits(m: seq<Word>, base: nat, w: nat): (s: seq<bool>)
    ensures |s| == w
  {
    seq(w, t requires 0 <= t < w => MapBit(m, base + t))
  }

  /** Chunk number q of a tnode of width w. */
  function Slot(m: seq<Word>, w: nat, q: nat): nat {
    Number(FieldBits(m, q * w, w))
  }

  /** The bits from base on are replaced by the w lowest bits of v. */
  ghost predicate Stored(m: seq<Word>, n: seq<Word>, base: nat, w: nat, v: Word) {
    && |n| == |m|
    && forall g: nat | g < 32 * |m| :: MapBit(n, g) == if base <= g < base + w && g - base < 32 then v[g - base] else MapBit(m, g)
  }

  lemma {:induction false} StoredSlots(m: seq<Word>, n: seq<Word>, w: nat, pos: nat, v: Word, q: nat)
    requires w <= 32 && 16 * w <= 32 * |m| && pos < 16 && q < 16 && Stored(m, n, pos * w, w, v)
    ensures Slot(n, w, q) == if q == pos then Number(v[..w]) else Slot(m, w, q)
  {
    hide MapBit; hide Number;
    MulMonotone(q + 1, 16, w);
    assert (q + 1) * w == q * w + w;
    MulMonotone(q + 1, pos, w); MulMonotone(pos + 1, q, w);
    assert (pos + 1) * w == pos * w + w;
    if q == pos {
      assert FieldBits(n, q * w, w) == v[..w];
    } else {
      assert FieldBits(n, q * w, w) == FieldBits(m, q * w, w);
    }
  }

  /** Where the field at pos lies. */
  lemma FieldPlace(base: nat, w: nat, len: nat)
    requires base + w <= 32 * len && 0 < w <= 30
    ensures var k, b := base / 32, base % 32; k < len && (w > 32 - b ==> k + 1 < len) && base == 32 * k + b
  {
  }

  /** Word y is x with v in its bits from b on. */
  ghost predicate FirstStored(x: Word, y: Word, b: nat, w: nat, v: Word) {
    forall i | 0 <= i < 32 :: y[i] == if b <= i < b + w then v[i - b] else x[i]
  }

  /** Word y is x with the bits of v from r on. */
  ghost predicate SecondStored(x: Word, y: Word, r: nat, w: nat, v: Word)
    requires w <= 32
  {
    forall i | 0 <= i < 32 :: y[i] == if i + r < w then v[i + r] else x[i]
  }

  /** The first word of a store. */
  lemma {:induction false} StoreFirst(x: Word, b: nat, w: nat, v: Word)
    requires b < 32 && w <= 30
    ensures var mask := Shl(Ones(w), b); FirstStored(x, WordOr(And(x, Not(mask)), And(mask, Shl(v, b))), b, w, v)
  {
  }

  /** The second word, when the field crosses into it. */
  lemma {:induction false} StoreSecond(x: Word, r: nat, w: nat, v: Word)
    requires r <= 32 && w <= 30
    ensures var mask := Shr(Ones(w), r); SecondStored(x, WordOr(And(x, Not(mask)), And(mask, Shr(v, r))), r, w, v)
  {
  }

  /** yaffs_load_tnode_0 with one chunk per group, on the words in place. */
  method LoadTnode0(words: array<Word>, w: nat, pos: nat, val: nat)
    requires 16 <= w <= 30 && w % 2 == 0 && words.Length >= w / 2 && val < 0x1_0000_0000
    modifies words
    ensures forall q: nat | q < 16 :: Slot(words[..], w, q) == if q == pos % 16 then val % Pow2(w) else old(Slot(words[..], w, q))
  {
    hide Slot; hide Number; hide Pow2; hide Digits;
    ghost var m := words[..];
    var p := pos % 16;
    var v: Word := Digits(val, 32);
    MulMonotone(p + 1, 16, w);
    assert (p + 1) * w == p * w + w;
    var base := p * w;
    FieldPlace(base, w, words.Length);
    var k, b := base / 32, base % 32;
    StoreBits(words, k, b, w, v);
    ghost var n := words[..];
    assert Stored(m, n, base, w, v);
    NumberCut(val, 32, w);
    NumberDigits(val, w);
    forall q: nat | q < 16 ensures Slot(n, w, q) == if q == p then val % Pow2(w) else Slot(m, w, q) {
      StoredSlots(m, n, w, p, v, q);
    }
  }

  /** The bits of v go to word k from bit b on, and into the next word if they do not fit. */
  method StoreBits(words: array<Word>, k: nat, b: nat, w: nat, v: Word)
    requires 0 < w <= 30 && b < 32 && k < words.Length && (w > 32 - b ==> k + 1 < words.Length)
    modifies words
    ensures Stored(old(words[..]), words[..], 32 * k + b, w, v)
  {
    hide And; hide WordOr; hide Not; hide Shl; hide Shr; hide Ones;
    ghost var m := words[..];
    var mask := Shl(Ones(w), b);
    words[k] := And(words[k], Not(mask));
    words[k] := WordOr(words[k], And(mask, Shl(v, b)));
    StoreFirst(m[k], b, w, v);
    if w > 32 - b {
      var r := 32 - b;
      mask := Shr(Ones(w), r);
      words[k + 1] := And(words[k + 1], Not(mask));
      words[k + 1] := WordOr(words[k + 1], And(mask, Shr(v, r)));
      StoreSecond(m[k + 1], r, w, v);
    }
    ghost var n := words[..];
    StoredWords(m, n, k, b, w, v);
  }

  lemma {:induction false} StoredWords(m: seq<Word>, n: seq<Word>, k: nat, b: nat, w: nat, v: Word)
    requires 0 < w <= 30 && b < 32 && k < |m| && (w > 32 - b ==> k + 1 < |m|) && |n| == |m|
    requires FirstStored(m[k], n[k], b, w, v)
    requires w > 32 - b ==> SecondStored(m[k + 1], n[k + 1], 32 - b, w, v)
    requires forall j | 0 <= j < |m| && j != k && !(w > 32 - b && j == k + 1) :: n[j] == m[j]
    ensures Stored(m, n, 32 * k + b, w, v)
  {
    forall g: nat | g < 32 * |m|
      ensures MapBit(n, g) == if 32 * k + b <= g < 32 * k + b + w && g - (32 * k + b) < 32 then v[g - (32 * k + b)] else MapBit(m, g)
    {
      var j, i := g / 32, g % 32;
      assert g == 32 * j + i;
      if j == k {
        assert n[k][i] == if b <= i < b + w then v[i - b] else m[k][i];
      } else if j == k + 1 && w > 32 - b {
        var x, y := m[k + 1], n[k + 1];
        assert y[i] == if i + (32 - b) < w then v[i + (32 - b)] else x[i];
      } else {
        assert n[j] == m[j];
      }
    }
  }

  /** yaffs_get_group_base with one chunk per group. */
  method GetGroupBase(words: array<Word>, w: nat, pos: nat) returns (val: nat)
    requires 16 <= w <= 30 && w % 2 == 0 && words.Length >= w / 2
    ensures val == Slot(words[..], w, pos % 16)
  {
    hide Number;
    var p := pos % 16;
    MulMonotone(p + 1, 16, w);
    assert (p + 1) * w == p * w + w;
    var base := p * w;
    FieldPlace(base, w, words.Length);
    var k, b := base / 32, base % 32;
    var bits := Shr(words[k], b);
    if w > 32 - b {
      bits := WordOr(bits, Shl(words[k + 1], 32 - b));
    }
    LoadedBits(words[..], k, b, w, bits);
    bits := And(bits, Ones(w));
    MaskedNumber(bits, w);
    val := Number(bits);
  }

  lemma {:induction false} LoadedBits(m: seq<Word>, k: nat, b: nat, w: nat, bits: Word)
    requires 0 < w <= 30 && b < 32 && k < |m| && (w > 32 - b ==> k + 1 < |m|)
    requires bits == if w > 32 - b then WordOr(Shr(m[k], b), Shl(m[k + 1], 32 - b)) else Shr(m[k], b)
    ensures And(bits, Ones(w))[..w] == FieldBits(m, 32 * k + b, w)
    ensures forall i | w <= i < 32 :: !And(bits, Ones(w))[i]
  {
    var a := And(bits, Ones(w));
    forall t | 0 <= t < w ensures a[t] == MapBit(m, 32 * k + b + t) {
      assert (32 * k + b + t) / 32 == if b + t < 32 then k else k + 1;
      assert (32 * k + b + t) % 32 == if b + t < 32 then b + t else b + t - 32;
    }
  }

  lemma {:induction false} MaskedNumber(s: seq<bool>, w: nat)
    requires w <= |s| && forall i | w <= i < |s| :: !s[i]
    ensures Number(s) == Number(s[..w])
  {
    if w == 0 {
      AllFalse(s);
      assert s[..0] == [];
    } else {
      MaskedNumber(s[1..], w - 1);
      assert s[..w][1..] == s[1..][..w - 1];
    }
  }

  lemma {:induction false} AllFalse(s: seq<bool>)
    requires forall i | 0 <= i < |s| :: !s[i]
    ensures Number(s) == 0
  {
    if s != [] { AllFalse(s[1..]); }
  }

  // ----- the width

  /** calc_shifts_ceiling: the logarithm to base two, rounded up. */
  method CalcShiftsCeiling(x0: nat) returns (shifts: nat)
    ensures x0 <= Pow2(shifts)
    ensures shifts > 0 ==> Pow2(shifts - 1) < x0
  {
    var x, extraBits := x0, 0;
    shifts := 0;
    while x > 1
      invariant x0 > 0 ==> x > 0
      invariant x * Pow2(shifts) <= x0 < (x + 1) * Pow2(shifts)
      invariant extraBits > 0 <==> x * Pow2(shifts) < x0
      invariant shifts > 0 ==> x0 > 1
    {
      ghost var p := Pow2(shifts);
      assert x == 2 * (x / 2) + x % 2;
      Halved(x, p);
      if x % 2 == 1 {
        extraBits := extraBits + 1;
      }
      x := x / 2;
      shifts := shifts + 1;
    }
    Bits.MulMonotone(1, x, Pow2(shifts));
    if extraBits > 0 {
      shifts := shifts + 1;
    }
  }

  lemma Halved(x: nat, p: nat)
    requires p > 0
    ensures (x / 2) * (2 * p) == x * p - (x % 2) * p
    ensures (x / 2 + 1) * (2 * p) == (x / 2) * (2 * p) + 2 * p
    ensures (x + 1) * p == x * p + p
  {
    var h := x / 2;
    assert x == 2 * h + x % 2;
    assert x * p == (2 * h) * p + (x % 2) * p;
    assert (2 * h) * p == h * (2 * p);
  }

  /** The tnode width and group bits chosen at mount: every chunk number fits its field. */
  method TnodeWidth(chunksPerBlock: nat, endBlock: nat, wideDisabled: bool) returns (width: nat, grpBits: nat)
    ensures 16 <= width && (wideDisabled ==> width == 16) && (!wideDisabled ==> grpBits == 0 && width % 2 == 0)
    ensures forall c: nat | c < chunksPerBlock * (endBlock + 1) :: c / Pow2(grpBits) < Pow2(width)
    ensures chunksPerBlock * (endBlock + 1) <= Pow2(30) ==> width <= 30
  {
    hide Pow2;
    var x := chunksPerBlock * (endBlock + 1);
    var bits := CalcShiftsCeiling(x);
    ghost var need := bits;
    if bits > 30 { Pow2Monotone(30, bits - 1); }
    if !wideDisabled {
      if bits % 2 == 1 {
        bits := bits + 1;
      }
      width := if bits < 16 then 16 else bits;
    } else {
      width := 16;
    }
    grpBits := if bits <= width then 0 else bits - width;
    Pow2Monotone(need, grpBits + width);
    Pow2Add(width, grpBits);
    forall c: nat | c < x ensures c / Pow2(grpBits) < Pow2(width) {
      Below(c, Pow2(width), Pow2(grpBits));
    }
  }

  lemma Below(c: nat, a: nat, p: nat)
    requires p > 0 && c < a * p
    ensures c / p < a
  {
    Remainder(c, p);
    Bits.MulMonotone(a, c / p, p);
  }
}
