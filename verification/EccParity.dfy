/** The parities behind the error-correcting codes of yaffs_ecc.c: column parities of all bytes, and the
    xor of the indices, and of the complemented indices, of the bytes of odd parity.
 */
module EccParity {
  import opened EccTables

  const MAX_BYTES := 0x1_0000_0000

  function Xor32(x: bv32, y: bv32): bv32 { x ^ y }

  function Not32(x: bv32): bv32 { !x }

  // ----- unsigned 32-bit numbers, through their bytes

  function Word4(b3: bv8, b2: bv8, b1: bv8, b0: bv8): bv32 {
    ((b3 as bv32) << 24) | ((b2 as bv32) << 16) | ((b1 as bv32) << 8) | (b0 as bv32)
  }

  function Byte3(w: bv32): bv8 { (w >> 24) as bv8 }

  function Byte2(w: bv32): bv8 { ((w >> 16) & 0xff) as bv8 }

  function Byte1(w: bv32): bv8 { ((w >> 8) & 0xff) as bv8 }

  function Byte0(w: bv32): bv8 { (w & 0xff) as bv8 }

  lemma BytesOfWord4(b3: bv8, b2: bv8, b1: bv8, b0: bv8)
    ensures var w := Word4(b3, b2, b1, b0); Byte3(w) == b3 && Byte2(w) == b2 && Byte1(w) == b1 && Byte0(w) == b0
  {
  }

  /** A number below 16 as a byte, and back. */
  function Nibble(i: nat): bv8
    requires i < 16
  {
    if i == 0 then 0x0 else if i == 1 then 0x1 else if i == 2 then 0x2 else if i == 3 then 0x3 else if i == 4 then 0x4
    else if i == 5 then 0x5 else if i == 6 then 0x6 else if i == 7 then 0x7 else if i == 8 then 0x8
    else if i == 9 then 0x9 else if i == 10 then 0xa else if i == 11 then 0xb else if i == 12 then 0xc
    else if i == 13 then 0xd else if i == 14 then 0xe else 0xf
  }

  function NibbleValue(x: bv8): (i: nat)
    ensures i < 16
  {
    if x == 0x0 then 0 else if x == 0x1 then 1 else if x == 0x2 then 2 else if x == 0x3 then 3 else if x == 0x4 then 4
    else if x == 0x5 then 5 else if x == 0x6 then 6 else if x == 0x7 then 7 else if x == 0x8 then 8
    else if x == 0x9 then 9 else if x == 0xa then 10 else if x == 0xb then 11 else if x == 0xc then 12
    else if x == 0xd then 13 else if x == 0xe then 14 else 15
  }

  lemma NibbleValueOf(i: nat)
    requires i < 16
    ensures NibbleValue(Nibble(i)) == i && Nibble(i) < 0x10
  {
  }

  /** A number below 256 as a byte, and back. */
  function Narrow(k: nat): bv8
    requires k < 256
  {
    (Nibble(k / 16) << 4) | Nibble(k % 16)
  }

  function Wide(x: bv8): (k: nat)
    ensures k < 256
  {
    16 * NibbleValue(x >> 4) + NibbleValue(x & 0x0f)
  }

  lemma NibblesOf(h: bv8, l: bv8)
    requires h < 0x10 && l < 0x10
    ensures ((h << 4) | l) >> 4 == h && ((h << 4) | l) & 0x0f == l
  {
  }

  lemma {:induction false} WideNarrow(k: nat)
    requires k < 256
    ensures Wide(Narrow(k)) == k
  {
    hide Nibble; hide NibbleValue;
    NibbleValueOf(k / 16); NibbleValueOf(k % 16);
    NibblesOf(Nibble(k / 16), Nibble(k % 16));
  }

  /** A byte index as the C code's unsigned int. */
  function Word(k: nat): bv32
    requires k < MAX_BYTES
  {
    Word4(Narrow(k / 0x100_0000), Narrow(k / 0x1_0000 % 0x100), Narrow(k / 0x100 % 0x100), Narrow(k % 0x100))
  }

  function Index(w: bv32): nat {
    Wide(Byte3(w)) * 0x100_0000 + Wide(Byte2(w)) * 0x1_0000 + Wide(Byte1(w)) * 0x100 + Wide(Byte0(w))
  }

  lemma {:induction false} IndexOfWord(k: nat)
    requires k < MAX_BYTES
    ensures Index(Word(k)) == k
  {
    hide Word4; hide Byte3; hide Byte2; hide Byte1; hide Byte0; hide Narrow; hide Wide;
    var b3, b2, b1, b0 := k / 0x100_0000, k / 0x1_0000 % 0x100, k / 0x100 % 0x100, k % 0x100;
    assert k == b3 * 0x100_0000 + b2 * 0x1_0000 + b1 * 0x100 + b0;
    BytesOfWord4(Narrow(b3), Narrow(b2), Narrow(b1), Narrow(b0));
    WideNarrow(b3); WideNarrow(b2); WideNarrow(b1); WideNarrow(b0);
  }

  // ----- exclusive or

  lemma Xor32Undo(x: bv32, y: bv32)
    ensures Xor32(Xor32(x, y), y) == x
    ensures Xor32(x, Xor32(x, y)) == y
    ensures Xor32(Xor32(x, y), x) == y
  {
  }

  lemma Xor32Assoc(x: bv32, y: bv32, z: bv32)
    ensures Xor32(Xor32(x, y), z) == Xor32(x, Xor32(y, z))
  {
  }

  lemma Xor32Comm(x: bv32, y: bv32)
    ensures Xor32(x, y) == Xor32(y, x)
  {
  }

  lemma {:induction false} Xor32Order(x: bv32, y: bv32, z: bv32)
    ensures Xor32(Xor32(x, y), z) == Xor32(Xor32(x, z), y)
  {
    hide Xor32;
    Xor32Assoc(x, y, z); Xor32Comm(y, z); Xor32Assoc(x, z, y);
  }

  lemma {:induction false} Xor32Chain(x: bv32, y: bv32, z: bv32)
    ensures Xor32(x, z) == Xor32(Xor32(x, y), Xor32(y, z))
  {
    hide Xor32;
    Xor32Assoc(Xor32(x, y), y, z); Xor32Undo(x, y);
  }

  lemma Xor32Same(x: bv32)
    ensures Xor32(x, x) == 0
    ensures Xor32(x, 0) == x
  {
  }

  lemma Xor32Complements(x: bv32, y: bv32)
    ensures Xor32(Not32(x), Not32(y)) == Xor32(x, y)
  {
  }

  lemma {:induction false} Xor32Zero(x: bv32, y: bv32)
    ensures Xor32(x, y) == 0 <==> x == y
    ensures Xor32(Not32(x), Not32(y)) == Xor32(x, y)
  {
    hide Xor32; hide Not32;
    Xor32Same(x);
    Xor32Undo(x, y);
    Xor32Complements(x, y);
  }

  lemma Xor8Undo(x: bv8, y: bv8)
    ensures Xor8(Xor8(x, y), y) == x
    ensures Xor8(Xor8(x, y), x) == y
    ensures Xor8(x, y) == 0 <==> x == y
  {
  }

  lemma Xor8Order(x: bv8, y: bv8, z: bv8)
    ensures Xor8(Xor8(x, y), z) == Xor8(Xor8(x, z), y)
    ensures Xor8(Xor8(x, y), z) == Xor8(x, Xor8(y, z))
  {
  }

  lemma Xor8Chain(x: bv8, y: bv8, z: bv8)
    ensures Xor8(x, z) == Xor8(Xor8(x, y), Xor8(y, z))
  {
  }

  datatype Sums = Sums(col: bv8, line: bv32, prime: bv32)

  /** The byte has odd parity. */
  predicate Odd(c: bv8) { c & 0x01 != 0 }

  /** One round of the loop: byte i has column parities c. */
  function Step(s: Sums, i: nat, c: bv8): Sums
    requires i < MAX_BYTES
  {
    if Odd(c) then Sums(Xor8(s.col, c), Xor32(s.line, Word(i)), Xor32(s.prime, Not32(Word(i))))
    else Sums(Xor8(s.col, c), s.line, s.prime)
  }

  ghost function Accumulate(data: seq<bv8>): Sums
    requires |data| <= MAX_BYTES
  {
    if data == [] then Sums(0, 0, 0)
    else Step(Accumulate(data[..|data| - 1]), |data| - 1, ColumnParity(data[|data| - 1]))
  }

  // ----- what one wrong bit does to the parities

  ghost function Flip(data: seq<bv8>, k: nat, b: nat): (r: seq<bv8>)
    requires k < |data| && b < 8
    ensures |r| == |data|
  {
    data[k := Xor8(data[k], Mask(b))]
  }

  /** The change of the sums when bit b of byte k changes. */
  function Delta(k: nat, b: nat): Sums
    requires k < MAX_BYTES && b < 8
  {
    Sums(Column(Mask(b)), Word(k), Not32(Word(k)))
  }

  function XorSums(s: Sums, d: Sums): Sums {
    Sums(Xor8(s.col, d.col), Xor32(s.line, d.line), Xor32(s.prime, d.prime))
  }

  lemma MaskColumns(b: nat)
    requires b < 8
    ensures Odd(Column(Mask(b)))
    ensures Column(Mask(b)) == if b == 0 then 0x55 else if b == 1 then 0x59 else if b == 2 then 0x65 else if b == 3 then 0x69
                               else if b == 4 then 0x95 else if b == 5 then 0x99 else if b == 6 then 0xa5 else 0xa9
  {
  }

  lemma OddFlip(c: bv8, m: bv8)
    requires Odd(m)
    ensures Odd(Xor8(c, m)) <==> !Odd(c)
  {
  }

  lemma FlipParity(x: bv8, b: nat)
    requires b < 8
    ensures ColumnParity(Xor8(x, Mask(b))) == Xor8(ColumnParity(x), Column(Mask(b)))
  {
    hide Column; hide Mask;
    ColumnParityIsColumn(x); ColumnParityIsColumn(Xor8(x, Mask(b)));
    hide ColumnParity;
    ColumnXor(x, Mask(b));
  }

  /** A wrong byte changes its own contribution only. */
  lemma {:induction false} StepFlipped(s: Sums, i: nat, x: bv8, b: nat)
    requires i < MAX_BYTES && b < 8
    ensures Step(s, i, ColumnParity(Xor8(x, Mask(b)))) == XorSums(Step(s, i, ColumnParity(x)), Delta(i, b))
  {
    hide Column; hide Mask; hide ColumnParity; hide Xor8; hide Xor32; hide Not32; hide Word; hide Odd;
    FlipParity(x, b);
    MaskColumns(b);
    OddFlip(ColumnParity(x), Column(Mask(b)));
    Xor32Undo(s.line, Word(i));
    Xor32Undo(s.prime, Not32(Word(i)));
    Xor8Order(s.col, ColumnParity(x), Column(Mask(b)));
  }

  lemma {:induction false} StepKeepsDelta(s: Sums, d: Sums, i: nat, c: bv8)
    requires i < MAX_BYTES
    ensures Step(XorSums(s, d), i, c) == XorSums(Step(s, i, c), d)
  {
    hide Xor8; hide Xor32; hide Not32; hide Word; hide Odd;
    Xor8Order(s.col, d.col, c);
    Xor32Order(s.line, d.line, Word(i));
    Xor32Order(s.prime, d.prime, Not32(Word(i)));
  }

  lemma {:induction false} AccumulateFlipped(data: seq<bv8>, k: nat, b: nat)
    requires |data| <= MAX_BYTES && k < |data| && b < 8
    ensures Accumulate(Flip(data, k, b)) == XorSums(Accumulate(data), Delta(k, b))
  {
    hide Step; hide XorSums; hide Delta; hide Mask; hide Xor8; hide ColumnParity;
    var n := |data| - 1;
    var f := Flip(data, k, b);
    if k == n {
      assert f[..n] == data[..n];
      StepFlipped(Accumulate(data[..n]), n, data[n], b);
    } else {
      assert f[..n] == Flip(data[..n], k, b);
      AccumulateFlipped(data[..n], k, b);
      StepKeepsDelta(Accumulate(data[..n]), Delta(k, b), n, ColumnParity(data[n]));
    }
  }

  lemma {:induction false} FlipTwice(data: seq<bv8>, k: nat, b: nat)
    requires k < |data| && b < 8
    ensures Flip(Flip(data, k, b), k, b) == data
  {
    hide Xor8; hide Mask;
    Xor8Undo(data[k], Mask(b));
  }

  // ----- population counts

  /** hweight8. */
  function Weight(x: bv8): nat {
    (if x & 0x01 != 0 then 1 else 0) + (if x & 0x02 != 0 then 1 else 0)
    + (if x & 0x04 != 0 then 1 else 0) + (if x & 0x08 != 0 then 1 else 0)
    + (if x & 0x10 != 0 then 1 else 0) + (if x & 0x20 != 0 then 1 else 0)
    + (if x & 0x40 != 0 then 1 else 0) + (if x & 0x80 != 0 then 1 else 0)
  }

  /** hweight32, a byte at a time. */
  function Weight32(x: bv32): nat {
    Weight((x & 0xff) as bv8) + Weight(((x >> 8) & 0xff) as bv8)
    + Weight(((x >> 16) & 0xff) as bv8) + Weight(((x >> 24) & 0xff) as bv8)
  }

  /** 1 << b. */
  function Mask32(b: nat): bv32
    requires b < 32
  {
    if b < 8 then Mask(b) as bv32
    else if b < 16 then (Mask(b - 8) as bv32) << 8
    else if b < 24 then (Mask(b - 16) as bv32) << 16
    else (Mask(b - 24) as bv32) << 24
  }

  lemma WeightOfMask(b: nat)
    requires b < 8
    ensures Weight(Mask(b)) == 1 && Weight(0) == 0 && Mask(b) != 0
  {
  }

  lemma {:induction false} Weight32OfMask(b: nat)
    requires b < 32
    ensures Weight32(Mask32(b)) == 1 && Weight32(0) == 0 && Mask32(b) != 0 && Mask32(b) != 0xffff_ffff
  {
    WeightOfMask(b % 8);
    hide Weight;
    var m := Mask(b % 8);
    ByteParts(m);
  }

  lemma ByteParts(m: bv8)
    ensures var x := m as bv32;
      && (x & 0xff) as bv8 == m && ((x >> 8) & 0xff) as bv8 == 0 && ((x >> 16) & 0xff) as bv8 == 0 && ((x >> 24) & 0xff) as bv8 == 0
    ensures var x := (m as bv32) << 8;
      && (x & 0xff) as bv8 == 0 && ((x >> 8) & 0xff) as bv8 == m && ((x >> 16) & 0xff) as bv8 == 0 && ((x >> 24) & 0xff) as bv8 == 0
    ensures var x := (m as bv32) << 16;
      && (x & 0xff) as bv8 == 0 && ((x >> 8) & 0xff) as bv8 == 0 && ((x >> 16) & 0xff) as bv8 == m && ((x >> 24) & 0xff) as bv8 == 0
    ensures var x := (m as bv32) << 24;
      && (x & 0xff) as bv8 == 0 && ((x >> 8) & 0xff) as bv8 == 0 && ((x >> 16) & 0xff) as bv8 == 0 && ((x >> 24) & 0xff) as bv8 == m
  {
  }
}
