/** yaffs_ecc_calc and yaffs_ecc_correct: three code bytes over 256 data bytes. */
module Ecc256 {
  import opened EccTables
  import opened EccParity

  /** ecc[0], ecc[1], ecc[2]. */
  datatype Code = Code(b0: bv8, b1: bv8, b2: bv8)

  function Not8(x: bv8): bv8 { !x }

  function Or8(x: bv8, y: bv8): bv8 { x | y }

  function Bit(x: bv8, m: bv8, r: bv8): bv8 { if x & m != 0 then r else 0 }

  /** The upper halves of two parities, bit by bit in turn. */
  function HighPairs(l: bv8, p: bv8): bv8 {
    Bit(l, 0x80, 0x80) | Bit(p, 0x80, 0x40) | Bit(l, 0x40, 0x20) | Bit(p, 0x40, 0x10)
    | Bit(l, 0x20, 0x08) | Bit(p, 0x20, 0x04) | Bit(l, 0x10, 0x02) | Bit(p, 0x10, 0x01)
  }

  function LowPairs(l: bv8, p: bv8): bv8 {
    Bit(l, 0x08, 0x80) | Bit(p, 0x08, 0x40) | Bit(l, 0x04, 0x20) | Bit(p, 0x04, 0x10)
    | Bit(l, 0x02, 0x08) | Bit(p, 0x02, 0x04) | Bit(l, 0x01, 0x02) | Bit(p, 0x01, 0x01)
  }

  function Assemble(col: bv8, line: bv8, prime: bv8): Code {
    Code(Not8(LowPairs(line, prime)), Not8(HighPairs(line, prime)), Or8(Not8(col), 0x03))
  }

  /** The code of 256 bytes: the arbitrary-length parities, with indices cut to eight bits. */
  ghost function CodeOf(data: seq<bv8>): Code
    requires |data| == 256
  {
    var s := Accumulate(data);
    Assemble(s.col, Byte0(s.line), Byte0(s.prime))
  }

  lemma LowXor(x: bv32, y: bv32)
    ensures Byte0(Xor32(x, y)) == Xor8(Byte0(x), Byte0(y))
    ensures Byte0(Not32(x)) == Not8(Byte0(x))
    ensures Byte0(0) == 0
  {
  }

  lemma {:induction false} LowWord(k: nat)
    requires k < 256
    ensures Byte0(Word(k)) == Narrow(k)
  {
    hide Word4; hide Byte3; hide Byte2; hide Byte1; hide Byte0; hide Narrow;
    assert k % 0x100 == k;
    BytesOfWord4(Narrow(k / 0x100_0000), Narrow(k / 0x1_0000 % 0x100), Narrow(k / 0x100 % 0x100), Narrow(k % 0x100));
  }

  /** The low byte of the sums follows the eight-bit loop. */
  lemma {:induction false} LowStep(s: Sums, i: nat, c: bv8)
    requires i < 256
    ensures var t := Step(s, i, c);
      && t.col == Xor8(s.col, c)
      && Byte0(t.line) == (if Odd(c) then Xor8(Byte0(s.line), Narrow(i)) else Byte0(s.line))
      && Byte0(t.prime) == (if Odd(c) then Xor8(Byte0(s.prime), Not8(Narrow(i))) else Byte0(s.prime))
  {
    hide Byte0; hide Narrow; hide Not8; hide Not32; hide Xor8; hide Xor32; hide Word; hide Odd;
    LowXor(s.line, Word(i)); LowXor(s.prime, Not32(Word(i))); LowXor(Word(i), 0);
    LowWord(i);
  }

  method Calc(data: array<bv8>) returns (ecc: Code)
    requires data.Length == 256
    ensures ecc == CodeOf(data[..])
  {
    hide Step; hide ColumnParity; hide HighPairs; hide LowPairs; hide Byte0; hide Not8; hide Xor8; hide Odd; hide Narrow; hide Or8;
    var col: bv8, line: bv8, prime: bv8 := 0, 0, 0;
    assert data[..0] == [];
    LowXor(0, 0);
    for i := 0 to 256
      invariant var s := Accumulate(data[..i]); col == s.col && line == Byte0(s.line) && prime == Byte0(s.prime)
    {
      assert data[..i + 1][..i] == data[..i];
      LowStep(Accumulate(data[..i]), i, ColumnParity(data[i]));
      var b := ColumnParity(data[i]);
      col := Xor8(col, b);
      if Odd(b) {
        line := Xor8(line, Narrow(i));
        prime := Xor8(prime, Not8(Narrow(i)));
      }
    }
    assert data[..256] == data[..];
    ecc := Assemble(col, line, prime);
  }

  // ----- correction

  function Difference(read: Code, test: Code): Code {
    Code(Xor8(read.b0, test.b0), Xor8(read.b1, test.b1), Xor8(read.b2, test.b2))
  }

  predicate PairsOdd(d: bv8) { (d ^ (d >> 1)) & 0x55 == 0x55 }

  predicate ColumnPairsOdd(d: bv8) { (d ^ (d >> 1)) & 0x54 == 0x54 }

  /** The byte number: the line bit of each pair. */
  function ByteNumber(d1: bv8, d0: bv8): bv8 {
    Bit(d1, 0x80, 0x80) | Bit(d1, 0x20, 0x40) | Bit(d1, 0x08, 0x20) | Bit(d1, 0x02, 0x10)
    | Bit(d0, 0x80, 0x08) | Bit(d0, 0x20, 0x04) | Bit(d0, 0x08, 0x02) | Bit(d0, 0x02, 0x01)
  }

  function BitNumber(d2: bv8): (b: nat)
    ensures b < 8
  {
    (if d2 & 0x80 != 0 then 4 else 0) + (if d2 & 0x20 != 0 then 2 else 0) + (if d2 & 0x08 != 0 then 1 else 0)
  }

  /** A byte is below 256, so the corrected position is always inside the page. */
  lemma WideBound(x: bv8)
    ensures Wide(x) < 256
  {
  }

  /** yaffs_ecc_correct; the code read back is returned as corrected. */
  method Correct(data: array<bv8>, read: Code, test: Code) returns (r: int, ecc: Code)
    requires data.Length == 256
    modifies data
    ensures (r, data[..], ecc) == Corrected(old(data[..]), read, test)
  {
    hide PairsOdd; hide ColumnPairsOdd; hide ByteNumber; hide BitNumber; hide Wide; hide Mask; hide Xor8; hide Weight;
    var d := Difference(read, test);
    r, ecc := -1, read;
    if d.b0 == 0 && d.b1 == 0 && d.b2 == 0 {
      r := 0;
      return;
    }
    if PairsOdd(d.b0) && PairsOdd(d.b1) && ColumnPairsOdd(d.b2) {
      WideBound(ByteNumber(d.b1, d.b0));
      var k := Wide(ByteNumber(d.b1, d.b0));
      data[k] := Xor8(data[k], Mask(BitNumber(d.b2)));
      r := 1;
      return;
    }
    if Weight(d.b0) + Weight(d.b1) + Weight(d.b2) == 1 {
      ecc := test;
      r := 1;
    }
  }

  /** Result, data and stored code after correction. */
  ghost function Corrected(data: seq<bv8>, read: Code, test: Code): (r: (int, seq<bv8>, Code))
    requires |data| == 256
  {
    var d := Difference(read, test);
    if d == Code(0, 0, 0) then (0, data, read)
    else if PairsOdd(d.b0) && PairsOdd(d.b1) && ColumnPairsOdd(d.b2) then
      WideBound(ByteNumber(d.b1, d.b0));
      (1, Flip(data, Wide(ByteNumber(d.b1, d.b0)), BitNumber(d.b2)), read)
    else if Weight(d.b0) + Weight(d.b1) + Weight(d.b2) == 1 then (1, data, test)
    else (-1, data, read)
  }

  // ----- the differences that errors cause

  function And8(x: bv8, y: bv8): bv8 { x & y }

  /** The code difference that bit b of byte k causes. */
  function DataError(k: nat, b: nat): Code
    requires k < 256 && b < 8
  {
    var x := Narrow(k);
    Code(LowPairs(x, Not8(x)), HighPairs(x, Not8(x)), And8(Column(Mask(b)), 0xfc))
  }

  lemma PairsSplit(l: bv8, p: bv8)
    ensures LowPairs(l, p) == Xor8(LowPairs(l, 0), LowPairs(0, p))
    ensures HighPairs(l, p) == Xor8(HighPairs(l, 0), HighPairs(0, p))
  {
  }

  lemma LinesXor(l: bv8, x: bv8)
    ensures LowPairs(Xor8(l, x), 0) == Xor8(LowPairs(l, 0), LowPairs(x, 0))
    ensures HighPairs(Xor8(l, x), 0) == Xor8(HighPairs(l, 0), HighPairs(x, 0))
  {
  }

  lemma PrimesXor(p: bv8, y: bv8)
    ensures LowPairs(0, Xor8(p, y)) == Xor8(LowPairs(0, p), LowPairs(0, y))
    ensures HighPairs(0, Xor8(p, y)) == Xor8(HighPairs(0, p), HighPairs(0, y))
  {
  }

  lemma {:induction false} Xor8Swap(a: bv8, b: bv8, c: bv8, d: bv8)
    ensures Xor8(Xor8(a, b), Xor8(c, d)) == Xor8(Xor8(a, c), Xor8(b, d))
  {
    hide Xor8;
    Xor8Order(Xor8(a, b), c, d); Xor8Order(a, b, c); Xor8Order(Xor8(a, c), b, d);
  }

  /** Interleaving is linear. */
  lemma {:induction false} PairsXor(l: bv8, p: bv8, x: bv8, y: bv8)
    ensures LowPairs(Xor8(l, x), Xor8(p, y)) == Xor8(LowPairs(l, p), LowPairs(x, y))
    ensures HighPairs(Xor8(l, x), Xor8(p, y)) == Xor8(HighPairs(l, p), HighPairs(x, y))
  {
    hide LowPairs; hide HighPairs; hide Xor8;
    PairsSplit(l, p); PairsSplit(x, y); PairsSplit(Xor8(l, x), Xor8(p, y));
    LinesXor(l, x); PrimesXor(p, y);
    Xor8Swap(LowPairs(l, 0), LowPairs(0, p), LowPairs(x, 0), LowPairs(0, y));
    Xor8Swap(HighPairs(l, 0), HighPairs(0, p), HighPairs(x, 0), HighPairs(0, y));
  }

  lemma NotXor(x: bv8, y: bv8)
    ensures Xor8(Not8(x), Not8(Xor8(x, y))) == y && Xor8(Not8(x), Not8(y)) == Xor8(x, y)
  {
  }

  lemma ColumnsXor(c: bv8, m: bv8)
    ensures Xor8(Or8(Not8(c), 0x03), Or8(Not8(Xor8(c, m)), 0x03)) == And8(m, 0xfc)
  {
  }

  /** Stored code against recomputed code is exactly the error of the flipped bit. */
  lemma {:induction false} FlipDifference(data: seq<bv8>, k: nat, b: nat)
    requires |data| == 256 && k < 256 && b < 8
    ensures Difference(CodeOf(data), CodeOf(Flip(data, k, b))) == DataError(k, b)
  {
    hide Accumulate; hide Mask; hide Column; hide Xor8; hide Xor32; hide Not32; hide Not8; hide Word; hide Narrow; hide Byte0;
    hide LowPairs; hide HighPairs; hide Or8; hide And8;
    AccumulateFlipped(data, k, b);
    var s := Accumulate(data);
    LowXor(s.line, Word(k)); LowXor(s.prime, Not32(Word(k))); LowXor(Word(k), 0);
    LowWord(k);
    var x := Narrow(k);
    PairsXor(Byte0(s.line), Byte0(s.prime), x, Not8(x));
    NotXor(LowPairs(Byte0(s.line), Byte0(s.prime)), LowPairs(x, Not8(x)));
    NotXor(HighPairs(Byte0(s.line), Byte0(s.prime)), HighPairs(x, Not8(x)));
    ColumnsXor(s.col, Column(Mask(b)));
  }

  lemma PairsDecode(x: bv8)
    ensures PairsOdd(LowPairs(x, Not8(x))) && PairsOdd(HighPairs(x, Not8(x)))
    ensures ByteNumber(HighPairs(x, Not8(x)), LowPairs(x, Not8(x))) == x
  {
  }

  lemma MaskDecode(b: nat)
    requires b < 8
    ensures var c := And8(Column(Mask(b)), 0xfc); ColumnPairsOdd(c) && BitNumber(c) == b && c != 0
  {
    MaskColumns(b);
    hide Column; hide Mask;
  }

  // ----- the promise of the code

  /** A flipped data bit is flipped back. */
  lemma {:induction false} CorrectsDataBit(data: seq<bv8>, k: nat, b: nat)
    requires |data| == 256 && k < 256 && b < 8
    ensures var wrong := Flip(data, k, b); Corrected(wrong, CodeOf(data), CodeOf(wrong)) == (1, data, CodeOf(data))
  {
    hide CodeOf; hide Mask; hide Column; hide And8; hide Flip; hide PairsOdd; hide ColumnPairsOdd; hide ByteNumber; hide BitNumber;
    hide Narrow; hide Wide; hide Not8; hide LowPairs; hide HighPairs; hide Difference;
    FlipDifference(data, k, b);
    PairsDecode(Narrow(k));
    MaskDecode(b);
    WideNarrow(k);
    FlipTwice(data, k, b);
  }

  /** The stored code with one bit wrong. */
  ghost predicate OneCodeBitOff(read: Code, code: Code) {
    || (exists b: nat | b < 8 :: read == code.(b0 := Xor8(code.b0, Mask(b))))
    || (exists b: nat | b < 8 :: read == code.(b1 := Xor8(code.b1, Mask(b))))
    || (exists b: nat | b < 8 :: read == code.(b2 := Xor8(code.b2, Mask(b))))
  }

  lemma NoPairs()
    ensures !PairsOdd(0) && !ColumnPairsOdd(0) && Weight(0) == 0
  {
  }

  /** A flipped code bit is repaired and the data is left alone. */
  lemma {:induction false} CorrectsCodeBit(data: seq<bv8>, read: Code, code: Code)
    requires |data| == 256 && OneCodeBitOff(read, code)
    ensures Corrected(data, read, code) == (1, data, code)
  {
    hide Mask; hide Xor8; hide PairsOdd; hide ColumnPairsOdd; hide Weight; hide BitNumber; hide ByteNumber; hide Flip; hide Wide;
    Xor8Undo(code.b0, code.b0); Xor8Undo(code.b1, code.b1); Xor8Undo(code.b2, code.b2);
    NoPairs();
    if b: nat :| b < 8 && read == code.(b0 := Xor8(code.b0, Mask(b))) {
      Xor8Undo(code.b0, Mask(b)); WeightOfMask(b);
    } else if b: nat :| b < 8 && read == code.(b1 := Xor8(code.b1, Mask(b))) {
      Xor8Undo(code.b1, Mask(b)); WeightOfMask(b);
    } else {
      var b: nat :| b < 8 && read == code.(b2 := Xor8(code.b2, Mask(b)));
      Xor8Undo(code.b2, Mask(b)); WeightOfMask(b);
    }
  }

  /** Parities of two errors differ in whole pairs. */
  lemma WholePairs(x: bv8, y: bv8)
    ensures !PairsOdd(Xor8(LowPairs(x, Not8(x)), LowPairs(y, Not8(y))))
    ensures Weight(Xor8(LowPairs(x, Not8(x)), LowPairs(y, Not8(y)))) % 2 == 0
    ensures Weight(Xor8(HighPairs(x, Not8(x)), HighPairs(y, Not8(y)))) % 2 == 0
    ensures Xor8(LowPairs(x, Not8(x)), LowPairs(y, Not8(y))) == 0 && Xor8(HighPairs(x, Not8(x)), HighPairs(y, Not8(y))) == 0 ==> x == y
  {
    hide LowPairs; hide HighPairs; hide PairsOdd; hide Weight; hide Xor8; hide Not8;
    PairsXor(x, Not8(x), y, Not8(y));
    NotXor(x, y); Xor8Undo(x, y);
    DoublePairs(Xor8(x, y));
  }

  lemma DoublePairs(z: bv8)
    ensures !PairsOdd(LowPairs(z, z))
    ensures Weight(LowPairs(z, z)) % 2 == 0 && Weight(HighPairs(z, z)) % 2 == 0
    ensures LowPairs(z, z) == 0 && HighPairs(z, z) == 0 ==> z == 0
  {
  }

  lemma WholeColumnPairs(b: nat, c: nat)
    requires b < 8 && c < 8
    ensures var x := Xor8(And8(Column(Mask(b)), 0xfc), And8(Column(Mask(c)), 0xfc)); Weight(x) % 2 == 0 && (b != c ==> x != 0)
  {
    MaskColumns(b); MaskColumns(c);
    hide Column; hide Mask;
  }

  lemma {:induction false} DifferenceChain(x: Code, y: Code, z: Code)
    ensures Difference(x, z) == Difference(Difference(x, y), Difference(y, z))
  {
    hide Xor8;
    Xor8Chain(x.b0, y.b0, z.b0); Xor8Chain(x.b1, y.b1, z.b1); Xor8Chain(x.b2, y.b2, z.b2);
  }

  /** Two flipped data bits are reported and the data is left alone. */
  lemma {:induction false} DetectsTwoDataBits(data: seq<bv8>, k: nat, b: nat, j: nat, c: nat)
    requires |data| == 256 && k < 256 && j < 256 && b < 8 && c < 8 && (k, b) != (j, c)
    ensures var wrong := Flip(Flip(data, k, b), j, c); Corrected(wrong, CodeOf(data), CodeOf(wrong)) == (-1, wrong, CodeOf(data))
  {
    hide CodeOf; hide Mask; hide Column; hide And8; hide Flip; hide PairsOdd; hide ColumnPairsOdd; hide ByteNumber; hide BitNumber;
    hide Narrow; hide Wide; hide Not8; hide LowPairs; hide HighPairs; hide Xor8; hide Weight;
    var one := Flip(data, k, b);
    FlipDifference(data, k, b);
    FlipDifference(one, j, c);
    DifferenceChain(CodeOf(data), CodeOf(one), CodeOf(Flip(one, j, c)));
    WholePairs(Narrow(k), Narrow(j));
    WholeColumnPairs(b, c);
    WideNarrow(k); WideNarrow(j);
  }
}
