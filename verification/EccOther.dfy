/** yaffs_ecc_calc_other and yaffs_ecc_correct_other: the single-error-correcting, double-error-
    detecting code over any number of bytes.
 */
module EccOther {
  import opened EccTables
  import opened EccParity

  /** struct yaffs_ecc_other. */
  datatype Ecc = Ecc(col: bv8, line: bv32, prime: bv32)

  function Columns(c: bv8): bv8 { (c >> 2) & 0x3f }

  ghost function EccOf(data: seq<bv8>): Ecc
    requires |data| <= MAX_BYTES
  {
    var s := Accumulate(data);
    Ecc(Columns(s.col), s.line, s.prime)
  }

  method CalcOther(data: array<bv8>) returns (ecc: Ecc)
    requires data.Length < MAX_BYTES
    ensures ecc == EccOf(data[..])
  {
    hide Step; hide ColumnParity; hide Columns;
    var s := Sums(0, 0, 0);
    var i := 0;
    assert data[..0] == [];
    while i < data.Length
      invariant i <= data.Length && s == Accumulate(data[..i])
    {
      s := Step(s, i, ColumnParity(data[i]));
      assert data[..i + 1][..i] == data[..i];
      i := i + 1;
    }
    assert data[..i] == data[..];
    ecc := Ecc(Columns(s.col), s.line, s.prime);
  }

  // ----- correction

  function Difference(read: Ecc, test: Ecc): Ecc {
    Ecc(Xor8(read.col, test.col), Xor32(read.line, test.line), Xor32(read.prime, test.prime))
  }

  /** In each pair of column parities exactly one bit is set. */
  predicate EachPairOdd(c: bv8) { (c ^ (c >> 1)) & 0x15 == 0x15 }

  /** The bit number in the column parities of a single error. */
  function BitNumber(c: bv8): (b: nat)
    ensures b < 8
  {
    (if c & 0x20 != 0 then 4 else 0) + (if c & 0x08 != 0 then 2 else 0) + (if c & 0x02 != 0 then 1 else 0)
  }

  /** yaffs_ecc_correct_other; the code read back is returned as corrected. */
  method CorrectOther(data: array<bv8>, read: Ecc, test: Ecc) returns (r: int, ecc: Ecc)
    requires data.Length < MAX_BYTES
    modifies data
    ensures (r, data[..], ecc) == Corrected(old(data[..]), read, test)
  {
    hide EachPairOdd; hide BitNumber; hide Mask; hide Weight; hide Weight32; hide Xor8; hide Xor32; hide Not32; hide Index;
    var d := Difference(read, test);
    r, ecc := -1, read;
    if d.col == 0 && d.line == 0 && d.prime == 0 {
      r := 0;
      return;
    }
    if d.line == Not32(d.prime) && EachPairOdd(d.col) {
      if Index(d.line) >= data.Length {
        return;
      }
      var k := Index(d.line);
      data[k] := Xor8(data[k], Mask(BitNumber(d.col)));
      r := 1;
      return;
    }
    if Weight32(d.line) + Weight32(d.prime) + Weight(d.col) == 1 {
      ecc := test;
      r := 1;
    }
  }

  /** Result, data and stored code after correction. */
  ghost function Corrected(data: seq<bv8>, read: Ecc, test: Ecc): (int, seq<bv8>, Ecc) {
    var d := Difference(read, test);
    if d == Ecc(0, 0, 0) then (0, data, read)
    else if d.line == Not32(d.prime) && EachPairOdd(d.col) then
      if Index(d.line) >= |data| then (-1, data, read) else (1, Flip(data, Index(d.line), BitNumber(d.col)), read)
    else if Weight32(d.line) + Weight32(d.prime) + Weight(d.col) == 1 then (1, data, test)
    else (-1, data, read)
  }

  // ----- the differences that errors cause

  /** The code difference that bit b of byte k causes. */
  function DataError(k: nat, b: nat): Ecc
    requires k < MAX_BYTES && b < 8
  {
    Ecc(Columns(Column(Mask(b))), Word(k), Not32(Word(k)))
  }

  lemma MaskPairs(b: nat)
    requires b < 8
    ensures EachPairOdd(Columns(Column(Mask(b)))) && BitNumber(Columns(Column(Mask(b)))) == b && Columns(Column(Mask(b))) != 0
  {
    MaskColumns(b);
    hide Column; hide Mask;
  }

  lemma NotNot(x: bv32)
    ensures Not32(Not32(x)) == x && Not32(0) == 0xffff_ffff
  {
  }

  /** Stored code against recomputed code is exactly the error of the flipped bit. */
  lemma {:induction false} FlipDifference(data: seq<bv8>, k: nat, b: nat)
    requires |data| < MAX_BYTES && k < |data| && b < 8
    ensures Difference(EccOf(data), EccOf(Flip(data, k, b))) == DataError(k, b)
  {
    hide Accumulate; hide Mask; hide Column; hide Xor8; hide Xor32; hide Not32; hide Word; hide Columns;
    AccumulateFlipped(data, k, b);
    var s := Accumulate(data);
    ColumnsXor(s.col, Column(Mask(b)));
    Xor32Undo(s.line, Word(k));
    Xor32Undo(s.prime, Not32(Word(k)));
  }

  lemma ColumnsXor(c: bv8, m: bv8)
    ensures Xor8(Columns(c), Columns(Xor8(c, m))) == Columns(m)
  {
  }

  lemma {:induction false} DifferenceChain(x: Ecc, y: Ecc, z: Ecc)
    ensures Difference(x, z) == Difference(Difference(x, y), Difference(y, z))
  {
    hide Xor8; hide Xor32;
    Xor8Chain(x.col, y.col, z.col);
    Xor32Chain(x.line, y.line, z.line);
    Xor32Chain(x.prime, y.prime, z.prime);
  }

  /** Column parities come in complementary pairs, so two of them differ in whole pairs. */
  lemma PairedColumns(b: nat, c: nat)
    requires b < 8 && c < 8
    ensures var x := Xor8(Columns(Column(Mask(b))), Columns(Column(Mask(c))));
      !EachPairOdd(x) && Weight(x) % 2 == 0 && (b != c ==> x != 0)
  {
    MaskColumns(b); MaskColumns(c);
    hide Column; hide Mask;
  }

  // ----- the promise of the code

  /** A flipped data bit is flipped back. */
  lemma {:induction false} CorrectsDataBit(data: seq<bv8>, k: nat, b: nat)
    requires |data| < MAX_BYTES && k < |data| && b < 8
    ensures var wrong := Flip(data, k, b); Corrected(wrong, EccOf(data), EccOf(wrong)) == (1, data, EccOf(data))
  {
    hide EccOf; hide Mask; hide Column; hide Columns; hide Flip; hide EachPairOdd; hide BitNumber; hide Word; hide Not32; hide Index;
    hide Difference;
    FlipDifference(data, k, b);
    MaskPairs(b);
    NotNot(Word(k));
    IndexOfWord(k);
    FlipTwice(data, k, b);
  }

  /** The stored code with one bit wrong. */
  ghost predicate OneCodeBitOff(read: Ecc, ecc: Ecc) {
    || (exists b: nat | b < 8 :: read == ecc.(col := Xor8(ecc.col, Mask(b))))
    || (exists b: nat | b < 32 :: read == ecc.(line := Xor32(ecc.line, Mask32(b))))
    || (exists b: nat | b < 32 :: read == ecc.(prime := Xor32(ecc.prime, Mask32(b))))
  }

  lemma NoPairs()
    ensures !EachPairOdd(0) && Weight(0) == 0
  {
  }

  /** A flipped code bit is repaired and the data is left alone. */
  lemma {:induction false} CorrectsCodeBit(data: seq<bv8>, read: Ecc, ecc: Ecc)
    requires OneCodeBitOff(read, ecc)
    ensures Corrected(data, read, ecc) == (1, data, ecc)
  {
    hide Mask; hide Mask32; hide Xor8; hide Xor32; hide Not32; hide EachPairOdd; hide Weight; hide Weight32; hide BitNumber; hide Index;
    hide Flip;
    Xor8Undo(ecc.col, ecc.col); Xor32Zero(ecc.line, ecc.line); Xor32Zero(ecc.prime, ecc.prime);
    NoPairs(); WeightOfMask(0); Weight32OfMask(0);
    NotNot(0);
    if b: nat :| b < 8 && read == ecc.(col := Xor8(ecc.col, Mask(b))) {
      Xor8Undo(ecc.col, Mask(b)); WeightOfMask(b);
    } else if b: nat :| b < 32 && read == ecc.(line := Xor32(ecc.line, Mask32(b))) {
      Xor32Undo(ecc.line, Mask32(b)); Weight32OfMask(b);
    } else {
      var b: nat :| b < 32 && read == ecc.(prime := Xor32(ecc.prime, Mask32(b)));
      Xor32Undo(ecc.prime, Mask32(b)); Weight32OfMask(b);
    }
  }

  /** Two flipped data bits are reported, not miscorrected. */
  lemma {:induction false} DetectsTwoDataBits(data: seq<bv8>, k: nat, b: nat, j: nat, c: nat)
    requires |data| < MAX_BYTES && k < |data| && j < |data| && b < 8 && c < 8 && (k, b) != (j, c)
    ensures var wrong := Flip(Flip(data, k, b), j, c); Corrected(wrong, EccOf(data), EccOf(wrong)) == (-1, wrong, EccOf(data))
  {
    hide EccOf; hide Mask; hide Column; hide Columns; hide Flip; hide EachPairOdd; hide BitNumber; hide Word; hide Not32; hide Index;
    hide Xor8; hide Xor32; hide Weight; hide Weight32;
    var one := Flip(data, k, b);
    FlipDifference(data, k, b);
    FlipDifference(one, j, c);
    DifferenceChain(EccOf(data), EccOf(one), EccOf(Flip(one, j, c)));
    PairedColumns(b, c);
    Xor32Zero(Word(k), Word(j));
    IndexOfWord(k); IndexOfWord(j);
  }
}
