/** The two 256-entry column parity tables of yaffs_ecc.c and nandecc.cpp: what they tabulate, and
    that they hold the same parities in different bit positions.

    The C arrays are written as sixteen rows of sixteen, indexed by the two nibbles of a byte.
 */
module EccTables {

  /** column_parity_table. */
  const COLUMN_PARITY: seq<seq<bv8>> := [
    [0x00, 0x55, 0x59, 0x0c, 0x65, 0x30, 0x3c, 0x69, 0x69, 0x3c, 0x30, 0x65, 0x0c, 0x59, 0x55, 0x00],
    [0x95, 0xc0, 0xcc, 0x99, 0xf0, 0xa5, 0xa9, 0xfc, 0xfc, 0xa9, 0xa5, 0xf0, 0x99, 0xcc, 0xc0, 0x95],
    [0x99, 0xcc, 0xc0, 0x95, 0xfc, 0xa9, 0xa5, 0xf0, 0xf0, 0xa5, 0xa9, 0xfc, 0x95, 0xc0, 0xcc, 0x99],
    [0x0c, 0x59, 0x55, 0x00, 0x69, 0x3c, 0x30, 0x65, 0x65, 0x30, 0x3c, 0x69, 0x00, 0x55, 0x59, 0x0c],
    [0xa5, 0xf0, 0xfc, 0xa9, 0xc0, 0x95, 0x99, 0xcc, 0xcc, 0x99, 0x95, 0xc0, 0xa9, 0xfc, 0xf0, 0xa5],
    [0x30, 0x65, 0x69, 0x3c, 0x55, 0x00, 0x0c, 0x59, 0x59, 0x0c, 0x00, 0x55, 0x3c, 0x69, 0x65, 0x30],
    [0x3c, 0x69, 0x65, 0x30, 0x59, 0x0c, 0x00, 0x55, 0x55, 0x00, 0x0c, 0x59, 0x30, 0x65, 0x69, 0x3c],
    [0xa9, 0xfc, 0xf0, 0xa5, 0xcc, 0x99, 0x95, 0xc0, 0xc0, 0x95, 0x99, 0xcc, 0xa5, 0xf0, 0xfc, 0xa9],
    [0xa9, 0xfc, 0xf0, 0xa5, 0xcc, 0x99, 0x95, 0xc0, 0xc0, 0x95, 0x99, 0xcc, 0xa5, 0xf0, 0xfc, 0xa9],
    [0x3c, 0x69, 0x65, 0x30, 0x59, 0x0c, 0x00, 0x55, 0x55, 0x00, 0x0c, 0x59, 0x30, 0x65, 0x69, 0x3c],
    [0x30, 0x65, 0x69, 0x3c, 0x55, 0x00, 0x0c, 0x59, 0x59, 0x0c, 0x00, 0x55, 0x3c, 0x69, 0x65, 0x30],
    [0xa5, 0xf0, 0xfc, 0xa9, 0xc0, 0x95, 0x99, 0xcc, 0xcc, 0x99, 0x95, 0xc0, 0xa9, 0xfc, 0xf0, 0xa5],
    [0x0c, 0x59, 0x55, 0x00, 0x69, 0x3c, 0x30, 0x65, 0x65, 0x30, 0x3c, 0x69, 0x00, 0x55, 0x59, 0x0c],
    [0x99, 0xcc, 0xc0, 0x95, 0xfc, 0xa9, 0xa5, 0xf0, 0xf0, 0xa5, 0xa9, 0xfc, 0x95, 0xc0, 0xcc, 0x99],
    [0x95, 0xc0, 0xcc, 0x99, 0xf0, 0xa5, 0xa9, 0xfc, 0xfc, 0xa9, 0xa5, 0xf0, 0x99, 0xcc, 0xc0, 0x95],
    [0x00, 0x55, 0x59, 0x0c, 0x65, 0x30, 0x3c, 0x69, 0x69, 0x3c, 0x30, 0x65, 0x0c, 0x59, 0x55, 0x00]]

  /** nand_ecc_precalc_table. */
  const NAND_PRECALC: seq<seq<bv8>> := [
    [0x00, 0x55, 0x56, 0x03, 0x59, 0x0c, 0x0f, 0x5a, 0x5a, 0x0f, 0x0c, 0x59, 0x03, 0x56, 0x55, 0x00],
    [0x65, 0x30, 0x33, 0x66, 0x3c, 0x69, 0x6a, 0x3f, 0x3f, 0x6a, 0x69, 0x3c, 0x66, 0x33, 0x30, 0x65],
    [0x66, 0x33, 0x30, 0x65, 0x3f, 0x6a, 0x69, 0x3c, 0x3c, 0x69, 0x6a, 0x3f, 0x65, 0x30, 0x33, 0x66],
    [0x03, 0x56, 0x55, 0x00, 0x5a, 0x0f, 0x0c, 0x59, 0x59, 0x0c, 0x0f, 0x5a, 0x00, 0x55, 0x56, 0x03],
    [0x69, 0x3c, 0x3f, 0x6a, 0x30, 0x65, 0x66, 0x33, 0x33, 0x66, 0x65, 0x30, 0x6a, 0x3f, 0x3c, 0x69],
    [0x0c, 0x59, 0x5a, 0x0f, 0x55, 0x00, 0x03, 0x56, 0x56, 0x03, 0x00, 0x55, 0x0f, 0x5a, 0x59, 0x0c],
    [0x0f, 0x5a, 0x59, 0x0c, 0x56, 0x03, 0x00, 0x55, 0x55, 0x00, 0x03, 0x56, 0x0c, 0x59, 0x5a, 0x0f],
    [0x6a, 0x3f, 0x3c, 0x69, 0x33, 0x66, 0x65, 0x30, 0x30, 0x65, 0x66, 0x33, 0x69, 0x3c, 0x3f, 0x6a],
    [0x6a, 0x3f, 0x3c, 0x69, 0x33, 0x66, 0x65, 0x30, 0x30, 0x65, 0x66, 0x33, 0x69, 0x3c, 0x3f, 0x6a],
    [0x0f, 0x5a, 0x59, 0x0c, 0x56, 0x03, 0x00, 0x55, 0x55, 0x00, 0x03, 0x56, 0x0c, 0x59, 0x5a, 0x0f],
    [0x0c, 0x59, 0x5a, 0x0f, 0x55, 0x00, 0x03, 0x56, 0x56, 0x03, 0x00, 0x55, 0x0f, 0x5a, 0x59, 0x0c],
    [0x69, 0x3c, 0x3f, 0x6a, 0x30, 0x65, 0x66, 0x33, 0x33, 0x66, 0x65, 0x30, 0x6a, 0x3f, 0x3c, 0x69],
    [0x03, 0x56, 0x55, 0x00, 0x5a, 0x0f, 0x0c, 0x59, 0x59, 0x0c, 0x0f, 0x5a, 0x00, 0x55, 0x56, 0x03],
    [0x66, 0x33, 0x30, 0x65, 0x3f, 0x6a, 0x69, 0x3c, 0x3c, 0x69, 0x6a, 0x3f, 0x65, 0x30, 0x33, 0x66],
    [0x65, 0x30, 0x33, 0x66, 0x3c, 0x69, 0x6a, 0x3f, 0x3f, 0x6a, 0x69, 0x3c, 0x66, 0x33, 0x30, 0x65],
    [0x00, 0x55, 0x56, 0x03, 0x59, 0x0c, 0x0f, 0x5a, 0x5a, 0x0f, 0x0c, 0x59, 0x03, 0x56, 0x55, 0x00]]

  lemma NibbleRange(x: bv8)
    ensures 0 <= (x >> 4) as int < 16 && 0 <= (x & 0xf) as int < 16
  {
    assert x >> 4 < 16 && x & 0xf < 16;
  }

  lemma TableSizes()
    ensures |COLUMN_PARITY| == 16 && forall r | 0 <= r < 16 :: |COLUMN_PARITY[r]| == 16
    ensures |NAND_PRECALC| == 16 && forall r | 0 <= r < 16 :: |NAND_PRECALC[r]| == 16
  {
  }

  function ColumnParity(x: bv8): bv8 {
    NibbleRange(x); TableSizes(); COLUMN_PARITY[(x >> 4) as int][(x & 0xf) as int]
  }

  function NandPrecalc(x: bv8): bv8 {
    NibbleRange(x); TableSizes(); NAND_PRECALC[(x >> 4) as int][(x & 0xf) as int]
  }

  /** A yaffs entry and a nand entry agree: six column parities and the byte's own parity. */
  predicate SameParity(y: bv8, n: bv8) {
    n & 0x3f == y >> 2 && ((n & 0x40 != 0) <==> (y & 0x01 != 0))
  }

  function Xor8(x: bv8, y: bv8): bv8 { x ^ y }

  // ----- the map behind column_parity_table

  function BitTerm(x: bv8, m: bv8, c: bv8): bv8 {
    if x & m != 0 then c else 0
  }

  function LowColumn(x: bv8): bv8 {
    (BitTerm(x, 0x01, 0x55) ^ BitTerm(x, 0x02, 0x59)) ^ (BitTerm(x, 0x04, 0x65) ^ BitTerm(x, 0x08, 0x69))
  }

  function HighColumn(x: bv8): bv8 {
    (BitTerm(x, 0x10, 0x95) ^ BitTerm(x, 0x20, 0x99)) ^ (BitTerm(x, 0x40, 0xa5) ^ BitTerm(x, 0x80, 0xa9))
  }

  /** The xor of one column pattern per set bit. */
  function Column(x: bv8): bv8 {
    LowColumn(x) ^ HighColumn(x)
  }

  /** 1 << b. */
  function Mask(b: nat): bv8
    requires b < 8
  {
    if b == 0 then 0x01 else if b == 1 then 0x02 else if b == 2 then 0x04 else if b == 3 then 0x08
    else if b == 4 then 0x10 else if b == 5 then 0x20 else if b == 6 then 0x40 else 0x80
  }

  lemma XorPairs(a: bv8, b: bv8, c: bv8, d: bv8)
    ensures (a ^ b) ^ (c ^ d) == (a ^ c) ^ (b ^ d)
  {
  }

  lemma AndXor(x: bv8, y: bv8, k: bv8)
    ensures (x ^ y) & k == (x & k) ^ (y & k)
  {
  }

  lemma OneBit(x: bv8, k: bv8)
    requires k & (k - 1) == 0
    ensures x & k == 0 || x & k == k
  {
  }

  lemma TermXor(x: bv8, y: bv8, k: bv8, c: bv8)
    requires k & (k - 1) == 0
    ensures BitTerm(x ^ y, k, c) == BitTerm(x, k, c) ^ BitTerm(y, k, c)
  {
    AndXor(x, y, k);
    OneBit(x, k); OneBit(y, k);
  }

  lemma LowColumnXor(x: bv8, y: bv8)
    ensures LowColumn(x ^ y) == LowColumn(x) ^ LowColumn(y)
  {
    TermXor(x, y, 0x01, 0x55); TermXor(x, y, 0x02, 0x59); TermXor(x, y, 0x04, 0x65); TermXor(x, y, 0x08, 0x69);
    hide BitTerm;
    XorPairs(BitTerm(x, 0x01, 0x55), BitTerm(y, 0x01, 0x55), BitTerm(x, 0x02, 0x59), BitTerm(y, 0x02, 0x59));
    XorPairs(BitTerm(x, 0x04, 0x65), BitTerm(y, 0x04, 0x65), BitTerm(x, 0x08, 0x69), BitTerm(y, 0x08, 0x69));
    XorPairs(BitTerm(x, 0x01, 0x55) ^ BitTerm(x, 0x02, 0x59), BitTerm(y, 0x01, 0x55) ^ BitTerm(y, 0x02, 0x59),
             BitTerm(x, 0x04, 0x65) ^ BitTerm(x, 0x08, 0x69), BitTerm(y, 0x04, 0x65) ^ BitTerm(y, 0x08, 0x69));
  }

  lemma HighColumnXor(x: bv8, y: bv8)
    ensures HighColumn(x ^ y) == HighColumn(x) ^ HighColumn(y)
  {
    TermXor(x, y, 0x10, 0x95); TermXor(x, y, 0x20, 0x99); TermXor(x, y, 0x40, 0xa5); TermXor(x, y, 0x80, 0xa9);
    hide BitTerm;
    XorPairs(BitTerm(x, 0x10, 0x95), BitTerm(y, 0x10, 0x95), BitTerm(x, 0x20, 0x99), BitTerm(y, 0x20, 0x99));
    XorPairs(BitTerm(x, 0x40, 0xa5), BitTerm(y, 0x40, 0xa5), BitTerm(x, 0x80, 0xa9), BitTerm(y, 0x80, 0xa9));
    XorPairs(BitTerm(x, 0x10, 0x95) ^ BitTerm(x, 0x20, 0x99), BitTerm(y, 0x10, 0x95) ^ BitTerm(y, 0x20, 0x99),
             BitTerm(x, 0x40, 0xa5) ^ BitTerm(x, 0x80, 0xa9), BitTerm(y, 0x40, 0xa5) ^ BitTerm(y, 0x80, 0xa9));
  }

  /** The tabulated map is linear. */
  lemma ColumnXor(x: bv8, y: bv8)
    ensures Column(Xor8(x, y)) == Xor8(Column(x), Column(y))
  {
    hide LowColumn; hide HighColumn;
    LowColumnXor(x, y); HighColumnXor(x, y);
    XorPairs(LowColumn(x), LowColumn(y), HighColumn(x), HighColumn(y));
  }

  // ----- the tables, entry by entry

  /** Every entry of column_parity_table. */
  lemma ColumnParityIsColumn(x: bv8)
    ensures ColumnParity(x) == Column(x)
  {
  }

  /** The two tables agree on every byte. */
  lemma TablesAgree(x: bv8)
    ensures SameParity(ColumnParity(x), NandPrecalc(x))
  {
  }
}
