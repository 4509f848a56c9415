/** yaffs_bitmap.c: one bit for each chunk of a block, in a row of bytes that refines a set of page numbers. */
module ChunkBits {
  import opened EccTables
  import opened EccParity

  predicate BitSet(x: bv8, b: nat)
    requires b < 8
  {
    x & Mask(b) != 0
  }

  function WithBit(x: bv8, b: nat): bv8
    requires b < 8
  {
    x | Mask(b)
  }

  function WithoutBit(x: bv8, b: nat): bv8
    requires b < 8
  {
    x & !Mask(b)
  }

  lemma SetOne(x: bv8, m: bv8, n: bv8)
    requires m in {0x01, 0x02, 0x04, 0x08, 0x10, 0x20, 0x40, 0x80} && n in {0x01, 0x02, 0x04, 0x08, 0x10, 0x20, 0x40, 0x80}
    ensures (x | m) & n != 0 <==> m == n || x & n != 0
  {
    assert (x | m) & n == (x & n) | (m & n);
  }

  lemma ClearOne(x: bv8, m: bv8, n: bv8)
    requires m in {0x01, 0x02, 0x04, 0x08, 0x10, 0x20, 0x40, 0x80} && n in {0x01, 0x02, 0x04, 0x08, 0x10, 0x20, 0x40, 0x80}
    ensures (x & !m) & n != 0 <==> m != n && x & n != 0
  {
  }

  lemma MasksDiffer(a: nat, b: nat)
    requires a < 8 && b < 8
    ensures Mask(a) == Mask(b) <==> a == b
    ensures Mask(a) in {0x01, 0x02, 0x04, 0x08, 0x10, 0x20, 0x40, 0x80}
  {
  }

  lemma {:induction false} SetBit(x: bv8, a: nat, b: nat)
    requires a < 8 && b < 8
    ensures BitSet(WithBit(x, a), b) <==> a == b || BitSet(x, b)
    ensures BitSet(WithoutBit(x, a), b) <==> a != b && BitSet(x, b)
  {
    MasksDiffer(a, b); MasksDiffer(b, a);
    SetOne(x, Mask(a), Mask(b));
    ClearOne(x, Mask(a), Mask(b));
    hide Mask;
  }

  lemma NoBits(x: bv8)
    ensures x == 0 <==> forall b: nat | b < 8 :: !BitSet(x, b)
  {
    if forall b: nat | b < 8 :: !BitSet(x, b) {
      assert !BitSet(x, 0) && !BitSet(x, 1) && !BitSet(x, 2) && !BitSet(x, 3) && !BitSet(x, 4) && !BitSet(x, 5) && !BitSet(x, 6) && !BitSet(x, 7);
      assert x & 0x01 == 0 && x & 0x02 == 0 && x & 0x04 == 0 && x & 0x08 == 0 && x & 0x10 == 0 && x & 0x20 == 0 && x & 0x40 == 0 && x & 0x80 == 0;
    }
  }

  // ----- a row of bytes

  predicate PageBit(s: seq<bv8>, p: nat) {
    p / 8 < |s| && BitSet(s[p / 8], p % 8)
  }

  /** The pages below n whose bit is set. */
  function Pages(s: seq<bv8>, n: nat): set<nat> {
    if n == 0 then {} else Pages(s, n - 1) + (if PageBit(s, n - 1) then {n - 1} else {})
  }

  lemma {:induction false} PagesAre(s: seq<bv8>, n: nat)
    ensures forall p: nat :: p in Pages(s, n) <==> p < n && PageBit(s, p)
  {
    hide PageBit;
    if n > 0 { PagesAre(s, n - 1); }
  }

  /** The set bits among the k lowest of a byte. */
  function LowWeight(x: bv8, k: nat): nat
    requires k <= 8
  {
    if k == 0 then 0 else LowWeight(x, k - 1) + (if BitSet(x, k - 1) then 1 else 0)
  }

  lemma WeightIsLow(x: bv8)
    ensures LowWeight(x, 8) == Weight(x)
  {
    assert LowWeight(x, 1) == (if x & 0x01 != 0 then 1 else 0);
    assert LowWeight(x, 2) == LowWeight(x, 1) + (if x & 0x02 != 0 then 1 else 0);
    assert LowWeight(x, 3) == LowWeight(x, 2) + (if x & 0x04 != 0 then 1 else 0);
    assert LowWeight(x, 4) == LowWeight(x, 3) + (if x & 0x08 != 0 then 1 else 0);
    assert LowWeight(x, 5) == LowWeight(x, 4) + (if x & 0x10 != 0 then 1 else 0);
    assert LowWeight(x, 6) == LowWeight(x, 5) + (if x & 0x20 != 0 then 1 else 0);
    assert LowWeight(x, 7) == LowWeight(x, 6) + (if x & 0x40 != 0 then 1 else 0);
    assert LowWeight(x, 8) == LowWeight(x, 7) + (if x & 0x80 != 0 then 1 else 0);
  }

  lemma {:induction false} PagesOfByte(s: seq<bv8>, i: nat, k: nat)
    requires i < |s| && k <= 8
    ensures |Pages(s, 8 * i + k)| == |Pages(s, 8 * i)| + LowWeight(s[i], k)
  {
    hide BitSet;
    if k > 0 {
      PagesOfByte(s, i, k - 1);
      var p := 8 * i + (k - 1);
      assert p / 8 == i && p % 8 == k - 1;
      PagesAre(s, p);
    }
  }

  /** The chunk bits of one block. */
  class BlockBits {
    const bits: array<bv8>
    const per: nat

    ghost predicate Valid()
      reads this, bits
    {
      bits.Length == (per + 7) / 8 && forall p: nat | PageBit(bits[..], p) :: p < per
    }

    /** The pages in use. */
    ghost function InUse(): set<nat>
      reads this, bits
    {
      Pages(bits[..], 8 * bits.Length)
    }

    constructor (per: nat)
      ensures Valid() && InUse() == {} && this.per == per
    {
      this.per := per;
      bits := new bv8[(per + 7) / 8](_ => 0);
      new;
      forall p: nat ensures !PageBit(bits[..], p) {
        NoBits(0);
      }
      PagesAre(bits[..], 8 * bits.Length);
    }

    /** yaffs_set_chunk_bit and yaffs_clear_chunk_bit. */
    method Put(p: nat, inUse: bool)
      requires Valid() && p < per
      modifies bits
      ensures Valid() && InUse() == if inUse then old(InUse()) + {p} else old(InUse()) - {p}
    {
      hide BitSet; hide WithBit; hide WithoutBit;
      ghost var was := bits[..];
      bits[p / 8] := if inUse then WithBit(bits[p / 8], p % 8) else WithoutBit(bits[p / 8], p % 8);
      ghost var now := bits[..];
      forall q: nat ensures PageBit(now, q) <==> if q == p then inUse else PageBit(was, q) {
        if q / 8 == p / 8 { SetBit(was[p / 8], p % 8, q % 8); }
      }
      PagesAre(was, 8 * bits.Length);
      PagesAre(now, 8 * bits.Length);
    }

    /** yaffs_check_chunk_bit. */
    method Check(p: nat) returns (inUse: bool)
      requires Valid() && p < per
      ensures inUse <==> p in InUse()
    {
      hide BitSet;
      PagesAre(bits[..], 8 * bits.Length);
      inUse := BitSet(bits[p / 8], p % 8);
    }

    /** yaffs_still_some_chunks. */
    method StillSomeChunks() returns (some: bool)
      requires Valid()
      ensures some <==> InUse() != {}
    {
      hide BitSet;
      PagesAre(bits[..], 8 * bits.Length);
      var i := 0;
      while i < bits.Length
        invariant i <= bits.Length && forall p: nat | p < 8 * i :: !PageBit(bits[..], p)
      {
        NoBits(bits[i]);
        if bits[i] != 0 {
          ghost var b: nat :| b < 8 && BitSet(bits[i], b);
          ghost var p := 8 * i + b;
          assert p / 8 == i && p % 8 == b;
          assert PageBit(bits[..], p);
          return true;
        }
        forall p: nat | p < 8 * (i + 1) ensures !PageBit(bits[..], p) {
          if p >= 8 * i { assert p / 8 == i; }
        }
        i := i + 1;
      }
      some := false;
    }

    /** yaffs_count_chunk_bits: the population count of the bytes is the number of pages in use. */
    method CountChunkBits() returns (n: nat)
      requires Valid()
      ensures n == |InUse()|
    {
      hide BitSet; hide Weight; hide PageBit;
      n := 0;
      var i := 0;
      while i < bits.Length
        invariant i <= bits.Length && n == |Pages(bits[..], 8 * i)|
      {
        PagesOfByte(bits[..], i, 8);
        WeightIsLow(bits[i]);
        n := n + Weight(bits[i]);
        i := i + 1;
      }
    }
  }
}
