/** nandecc.cpp: the same 256-byte code computed from a different table, with the two line bytes
    exchanged (the build without the SmartMedia byte order).
 */
module NandEcc {
  import opened EccTables
  import opened EccParity
  import opened Ecc256

  const EBADMSG := 77

  /** The same three bytes as the yaffs code, bytes 0 and 1 exchanged. */
  function Exchanged(c: Code): Code {
    Code(c.b1, c.b0, c.b2)
  }

  function Low6(x: bv8): bv8 { x & 0x3f }

  predicate OddEntry(x: bv8) { x & 0x40 != 0 }

  function Shr2(x: bv8): bv8 { x >> 2 }

  /** ecc_code[2]. */
  function ColumnByte(reg1: bv8): bv8 { ((!reg1) << 2) | 0x03 }

  function Tmp1(reg3: bv8, reg2: bv8): bv8 {
    (reg3 & 0x80) | ((reg2 & 0x80) >> 1) | ((reg3 & 0x40) >> 1) | ((reg2 & 0x40) >> 2)
    | ((reg3 & 0x20) >> 2) | ((reg2 & 0x20) >> 3) | ((reg3 & 0x10) >> 3) | ((reg2 & 0x10) >> 4)
  }

  function Tmp2(reg3: bv8, reg2: bv8): bv8 {
    ((reg3 & 0x08) << 4) | ((reg2 & 0x08) << 3) | ((reg3 & 0x04) << 3) | ((reg2 & 0x04) << 2)
    | ((reg3 & 0x02) << 2) | ((reg2 & 0x02) << 1) | ((reg3 & 0x01) << 1) | (reg2 & 0x01)
  }

  lemma SamePairs(l: bv8, p: bv8)
    ensures Tmp1(l, p) == HighPairs(l, p)
    ensures Tmp2(l, p) == LowPairs(l, p)
  {
  }

  lemma SameColumns(col: bv8)
    ensures ColumnByte(Shr2(col)) == Or8(Not8(col), 0x03)
  {
  }

  lemma ShiftXor(x: bv8, y: bv8)
    ensures Xor8(Shr2(x), Shr2(y)) == Shr2(Xor8(x, y)) && Shr2(0) == 0
  {
  }

  lemma {:induction false} TableStep(x: bv8)
    ensures Low6(NandPrecalc(x)) == Shr2(ColumnParity(x)) && (OddEntry(NandPrecalc(x)) <==> Odd(ColumnParity(x)))
  {
    TablesAgree(x);
    hide ColumnParity; hide NandPrecalc;
  }

  /** nand_calculate_ecc yields the yaffs code with bytes 0 and 1 exchanged. */
  method Calculate(data: array<bv8>) returns (code: Code)
    requires data.Length == 256
    ensures code == Exchanged(CodeOf(data[..]))
  {
    hide Step; hide ColumnParity; hide NandPrecalc; hide HighPairs; hide LowPairs; hide Byte0; hide Not8; hide Xor8; hide Odd;
    hide Narrow; hide Or8; hide Low6; hide OddEntry; hide Shr2; hide ColumnByte; hide Tmp1; hide Tmp2;
    var reg1: bv8, reg2: bv8, reg3: bv8 := 0, 0, 0;
    assert data[..0] == [];
    LowXor(0, 0); ShiftXor(0, 0);
    for i := 0 to 256
      invariant var s := Accumulate(data[..i]); reg1 == Shr2(s.col) && reg3 == Byte0(s.line) && reg2 == Byte0(s.prime)
    {
      ghost var s := Accumulate(data[..i]);
      assert data[..i + 1][..i] == data[..i];
      LowStep(s, i, ColumnParity(data[i]));
      TableStep(data[i]);
      ShiftXor(s.col, ColumnParity(data[i]));
      var idx := NandPrecalc(data[i]);
      reg1 := Xor8(reg1, Low6(idx));
      if OddEntry(idx) {
        reg3 := Xor8(reg3, Narrow(i));
        reg2 := Xor8(reg2, Not8(Narrow(i)));
      }
    }
    assert data[..256] == data[..];
    SamePairs(reg3, reg2);
    SameColumns(Accumulate(data[..]).col);
    code := Code(Not8(Tmp1(reg3, reg2)), Not8(Tmp2(reg3, reg2)), ColumnByte(reg1));
  }

  // ----- countbits

  lemma WeightHalf(x: bv32)
    ensures Weight32(x) == (if x & 1 != 0 then 1 else 0) + Weight32(x >> 1)
  {
  }

  lemma HalfSmaller(x: bv32)
    ensures x != 0 ==> x >> 1 < x
    ensures Weight32(0) == 0
  {
  }

  method CountBits(x: bv32) returns (res: nat)
    ensures res == Weight32(x)
  {
    hide Weight32;
    var byte := x;
    res := 0;
    while byte != 0
      invariant res + Weight32(byte) == Weight32(x)
      decreases byte
    {
      WeightHalf(byte); HalfSmaller(byte);
      res := res + (if byte & 1 != 0 then 1 else 0);
      byte := byte >> 1;
    }
    HalfSmaller(0);
  }

  lemma WeightOfBytes(s0: bv8, s1: bv8, s2: bv8)
    ensures Weight32(Word4(0, s2, s1, s0)) == Weight(s0) + Weight(s1) + Weight(s2)
  {
    hide Weight; hide Word4;
    BytesOfWord4(0, s2, s1, s0);
    NoPairs();
  }

  // ----- nand_correct_data

  function ByteOffset(s1: bv8, s0: bv8): bv8 {
    (s1 & 0x80) | ((s1 << 1) & 0x40) | ((s1 << 2) & 0x20) | ((s1 << 3) & 0x10)
    | ((s0 >> 4) & 0x08) | ((s0 >> 3) & 0x04) | ((s0 >> 2) & 0x02) | ((s0 >> 1) & 0x01)
  }

  function BitOffset(s2: bv8): bv8 {
    ((s2 >> 5) & 0x04) | ((s2 >> 4) & 0x02) | ((s2 >> 3) & 0x01)
  }

  lemma SameByte(s1: bv8, s0: bv8)
    ensures ByteOffset(s1, s0) == ByteNumber(s1, s0)
  {
  }

  lemma SameBit(s2: bv8)
    ensures Wide(BitOffset(s2)) == BitNumber(s2)
  {
    var o := BitOffset(s2);
    assert o == (if s2 & 0x80 != 0 then 0x04 else 0) | (if s2 & 0x20 != 0 then 0x02 else 0) | (if s2 & 0x08 != 0 then 0x01 else 0);
    if s2 & 0x80 != 0 {
      if s2 & 0x20 != 0 { if s2 & 0x08 != 0 { assert o == 7; } else { assert o == 6; } }
      else { if s2 & 0x08 != 0 { assert o == 5; } else { assert o == 4; } }
    } else {
      if s2 & 0x20 != 0 { if s2 & 0x08 != 0 { assert o == 3; } else { assert o == 2; } }
      else { if s2 & 0x08 != 0 { assert o == 1; } else { assert o == 0; } }
    }
  }

  ghost function Outcome(data: seq<bv8>, read: Code, calculated: Code): (int, seq<bv8>)
    requires |data| == 256
  {
    var yaffs := Corrected(data, Exchanged(read), Exchanged(calculated));
    (if yaffs.0 == -1 then -EBADMSG else yaffs.0, yaffs.1)
  }

  /** nand_correct_data corrects the page exactly as yaffs_ecc_correct does on the exchanged code; it
      reports -EBADMSG where yaffs reports -1, and does not repair the stored code.
   */
  method CorrectData(data: array<bv8>, read: Code, calculated: Code) returns (r: int)
    requires data.Length == 256
    modifies data
    ensures (r, data[..]) == Outcome(old(data[..]), read, calculated)
  {
    hide PairsOdd; hide ColumnPairsOdd; hide ByteNumber; hide BitNumber; hide Wide; hide Mask; hide Xor8; hide Weight;
    hide ByteOffset; hide BitOffset; hide Weight32; hide Word4;
    var s1 := Xor8(calculated.b0, read.b0);
    var s0 := Xor8(calculated.b1, read.b1);
    var s2 := Xor8(calculated.b2, read.b2);
    Xor8Comm(calculated.b0, read.b0); Xor8Comm(calculated.b1, read.b1); Xor8Comm(calculated.b2, read.b2);
    if s0 == 0 && s1 == 0 && s2 == 0 {
      return 0;
    }
    if PairsOdd(s0) && PairsOdd(s1) && ColumnPairsOdd(s2) {
      WideBound(ByteOffset(s1, s0));
      SameByte(s1, s0); SameBit(s2);
      var k := Wide(ByteOffset(s1, s0));
      data[k] := Xor8(data[k], Mask(Wide(BitOffset(s2))));
      return 1;
    }
    WeightOfBytes(s0, s1, s2);
    var n := CountBits(Word4(0, s2, s1, s0));
    if n == 1 {
      return 1;
    }
    return -EBADMSG;
  }

  lemma Xor8Comm(x: bv8, y: bv8)
    ensures Xor8(x, y) == Xor8(y, x)
  {
  }

  /** Any one data bit is restored and any two are reported. */
  lemma {:induction false} OneRestoredTwoReported(data: seq<bv8>, k: nat, b: nat, j: nat, c: nat)
    requires |data| == 256 && k < 256 && j < 256 && b < 8 && c < 8 && (k, b) != (j, c)
    ensures var wrong := Flip(data, k, b); Outcome(wrong, Exchanged(CodeOf(data)), Exchanged(CodeOf(wrong))) == (1, data)
    ensures var wrong := Flip(Flip(data, k, b), j, c);
      Outcome(wrong, Exchanged(CodeOf(data)), Exchanged(CodeOf(wrong))) == (-EBADMSG, wrong)
  {
    hide CodeOf; hide Corrected; hide Flip;
    CorrectsDataBit(data, k, b);
    DetectsTwoDataBits(data, k, b, j, c);
  }

  /** A wrong code bit never touches the page. */
  lemma {:induction false} CodeBitHarmless(data: seq<bv8>, read: Code, code: Code)
    requires |data| == 256 && OneCodeBitOff(read, code)
    ensures Outcome(data, read, code) == (1, data)
  {
    hide Corrected; hide Mask; hide Xor8;
    CorrectsCodeBit(data, Exchanged(read), Exchanged(code));
  }
}
