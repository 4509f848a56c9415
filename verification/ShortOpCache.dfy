/** File reads and writes through the short-op cache refine a plain sequence of bytes, zero past its end. */
module ShortOpCache {
  import opened CacheView
  import opened Division
  import Bits

  // ----- addresses

  const LIMIT_31 := 0x8000_0000
  const LIMIT_32 := 0x1_0000_0000
  /** YAFFS_MAX_CHUNK_ID. */
  const MAX_CHUNK_ID := 0x0fff_ffff

  /** An unsigned value kept in an int. */
  function AsInt(v: nat): int
    requires v < LIMIT_32
  {
    if v < LIMIT_31 then v else v - LIMIT_32
  }

  /** yaffs_addr_to_chunk for a chunk of div * 2^shift bytes: the shifted address is cut to 32 bits and kept in an int, but
      divided as an unsigned number.
   */
  function AddrToChunk(addr: nat, shift: nat, div: nat, bpc: nat): (int, int)
    requires div > 0 && bpc > 0
  {
    var chunk := (addr / Bits.Pow2(shift)) % LIMIT_32;
    if div == 1 then (AsInt(chunk), addr % Bits.Pow2(shift))
    else (chunk / div, addr - (chunk / div) * bpc)
  }

  /** The shifted addresses that the split gets right. */
  function ShiftedLimit(div: nat): nat { if div == 1 then LIMIT_31 else LIMIT_32 }

  /** The split is quotient and remainder if and only if the shifted address is below its limit. */
  lemma {:induction false} AddrIsDivModIff(addr: nat, shift: nat, div: nat, bpc: nat)
    requires 0 < div <= LIMIT_32 && bpc == div * Bits.Pow2(shift) && bpc > 0
    ensures AddrToChunk(addr, shift, div, bpc) == (addr / bpc, addr % bpc) <==> addr / Bits.Pow2(shift) < ShiftedLimit(div)
  {
    hide Bits.Pow2;
    DivDiv(addr, Bits.Pow2(shift), div, bpc);
    Remainder(addr, bpc);
    var v := addr / Bits.Pow2(shift);
    Cut32(v);
    if div == 1 {
      assert bpc == Bits.Pow2(shift);
    } else if v >= LIMIT_32 {
      CutQuotient(v, v % LIMIT_32, div);
    }
  }

  lemma Cut32(v: nat)
    ensures v < LIMIT_32 ==> v % LIMIT_32 == v
    ensures v >= LIMIT_32 ==> v % LIMIT_32 <= v - LIMIT_32
  {
  }

  lemma {:induction false} CutQuotient(v: nat, w: nat, div: nat)
    requires 0 < div <= LIMIT_32 && w <= v - LIMIT_32
    ensures w / div < v / div
  {
    DivMonotone(w + div, v, div);
    Bits.DivModUnique(w + div, w / div + 1, w % div, div);
  }

  lemma AddrIsDivMod(addr: nat, shift: nat, div: nat, bpc: nat)
    requires 0 < div <= LIMIT_32 && bpc == div * Bits.Pow2(shift) && bpc > 0 && addr / Bits.Pow2(shift) < ShiftedLimit(div)
    ensures AddrToChunk(addr, shift, div, bpc) == (addr / bpc, addr % bpc)
  {
    hide Bits.Pow2; hide AddrToChunk; hide ShiftedLimit;
    AddrIsDivModIff(addr, shift, div, bpc);
  }

  /** Bytes in one chunk. */
  lemma InChunk(offset: nat, k: nat, bpc: nat)
    requires bpc > 0 && offset % bpc + k < bpc
    ensures (offset + k) / bpc == offset / bpc && (offset + k) % bpc == offset % bpc + k
  {
    Bits.DivModUnique(offset + k, offset / bpc, offset % bpc + k, bpc);
  }

  // ----- files as bytes

  /** The byte of a file at pos, as it would be read. */
  function ByteOf(c: seq<Entry>, s: Store, bpc: nat, obj: nat, pos: nat): bv8
    requires bpc > 0
  {
    var v := View(c, s, obj, pos / bpc + 1, bpc).data;
    if pos % bpc < |v| then v[pos % bpc] else 0
  }

  ghost predicate SameBytes(c: seq<Entry>, s: Store, d: seq<Entry>, t: Store, bpc: nat)
    requires bpc > 0
  {
    forall obj: nat, pos: nat :: ByteOf(d, t, bpc, obj, pos) == ByteOf(c, s, bpc, obj, pos)
  }

  lemma SameViewBytes(c: seq<Entry>, s: Store, d: seq<Entry>, t: Store, bpc: nat)
    requires bpc > 0 && SameView(c, s, d, t, bpc)
    ensures SameBytes(c, s, d, t, bpc)
  {
    hide View;
  }

  /** The bytes from offset on are replaced by buf, and nothing else. */
  ghost predicate Wrote(c: seq<Entry>, s: Store, d: seq<Entry>, t: Store, bpc: nat, obj: nat, offset: nat, buf: Bytes)
    requires bpc > 0
  {
    forall o: nat, pos: nat :: ByteOf(d, t, bpc, o, pos)
      == if o == obj && offset <= pos < offset + |buf| then buf[pos - offset] else ByteOf(c, s, bpc, o, pos)
  }

  function Patch(v: Bytes, start: nat, buf: Bytes): (r: Bytes)
    requires start + |buf| <= |v|
    ensures |r| == |v|
  {
    v[..start] + buf + v[start + |buf|..]
  }

  lemma {:induction false} PatchWrote(c: seq<Entry>, s: Store, d: seq<Entry>, t: Store, bpc: nat, obj: nat, offset: nat, buf: Bytes, n: nat)
    requires bpc > 0 && |View(c, s, obj, offset / bpc + 1, bpc).data| == bpc && offset % bpc + |buf| <= bpc
    requires ChangedView(c, s, d, t, bpc, obj, offset / bpc + 1, Chunk(Patch(View(c, s, obj, offset / bpc + 1, bpc).data, offset % bpc, buf), n))
    ensures Wrote(c, s, d, t, bpc, obj, offset, buf)
  {
    hide View;
    forall o: nat, pos: nat ensures ByteOf(d, t, bpc, o, pos)
      == if o == obj && offset <= pos < offset + |buf| then buf[pos - offset] else ByteOf(c, s, bpc, o, pos)
    {
      PatchAt(c, s, d, t, bpc, obj, offset, buf, n, o, pos);
    }
  }

  lemma {:induction false} PatchAt(c: seq<Entry>, s: Store, d: seq<Entry>, t: Store, bpc: nat, obj: nat, offset: nat, buf: Bytes, n: nat,
                                   o: nat, pos: nat)
    requires bpc > 0 && |View(c, s, obj, offset / bpc + 1, bpc).data| == bpc && offset % bpc + |buf| <= bpc
    requires ChangedView(c, s, d, t, bpc, obj, offset / bpc + 1, Chunk(Patch(View(c, s, obj, offset / bpc + 1, bpc).data, offset % bpc, buf), n))
    ensures ByteOf(d, t, bpc, o, pos)
      == if o == obj && offset <= pos < offset + |buf| then buf[pos - offset] else ByteOf(c, s, bpc, o, pos)
  {
    hide View;
    hide Patch; hide ChangedView;
    var q, r, start := pos / bpc, pos % bpc, offset % bpc;
    var v := View(c, s, obj, offset / bpc + 1, bpc).data;
    ViewAfter(c, s, d, t, bpc, obj, offset / bpc + 1, Chunk(Patch(v, start, buf), n), o, q + 1);
    PatchByte(v, start, buf, r);
    WhereInChunk(pos, offset, |buf|, bpc);
  }

  lemma ViewAfter(c: seq<Entry>, s: Store, d: seq<Entry>, t: Store, bpc: nat, obj: nat, chunk: nat, data: Chunk, o: nat, k: nat)
    requires ChangedView(c, s, d, t, bpc, obj, chunk, data)
    ensures View(d, t, o, k, bpc) == if o == obj && k == chunk then data else View(c, s, o, k, bpc)
  {
    hide View;
  }

  lemma PatchByte(v: Bytes, start: nat, buf: Bytes, r: nat)
    requires start + |buf| <= |v| && r < |v|
    ensures Patch(v, start, buf)[r] == if start <= r < start + |buf| then buf[r - start] else v[r]
  {
  }

  lemma {:induction false} WhereInChunk(pos: nat, offset: nat, n: nat, bpc: nat)
    requires bpc > 0 && offset % bpc + n <= bpc
    ensures offset <= pos < offset + n <==> pos / bpc == offset / bpc && offset % bpc <= pos % bpc < offset % bpc + n
    ensures offset <= pos < offset + n ==> pos % bpc - offset % bpc == pos - offset
  {
    if offset <= pos < offset + n {
      InChunk(offset, pos - offset, bpc);
    } else if pos / bpc == offset / bpc {
      SamePlace(pos, offset, bpc);
    }
  }

  lemma {:induction false} WroteTrans(a: seq<Entry>, r: Store, c: seq<Entry>, s: Store, d: seq<Entry>, t: Store, bpc: nat,
                                      obj: nat, offset: nat, x: Bytes, y: Bytes)
    requires bpc > 0 && Wrote(a, r, c, s, bpc, obj, offset, x) && Wrote(c, s, d, t, bpc, obj, offset + |x|, y)
    ensures Wrote(a, r, d, t, bpc, obj, offset, x + y)
  {
    hide ByteOf;
  }

  lemma {:induction false} SameThenWrote(a: seq<Entry>, r: Store, c: seq<Entry>, s: Store, d: seq<Entry>, t: Store, bpc: nat,
                                         obj: nat, offset: nat, x: Bytes)
    requires bpc > 0 && SameBytes(a, r, c, s, bpc) && Wrote(c, s, d, t, bpc, obj, offset, x)
    ensures Wrote(a, r, d, t, bpc, obj, offset, x)
  {
    hide ByteOf;
  }

  /** A file is zero at and past its size. */
  ghost predicate ZeroTail(c: seq<Entry>, s: Store, bpc: nat, obj: nat, size: nat)
    requires bpc > 0
  {
    forall pos: nat | pos >= size :: ByteOf(c, s, bpc, obj, pos) == 0
  }

  function SizeIn(sizes: map<nat, nat>, obj: nat): nat { if obj in sizes then sizes[obj] else 0 }

  ghost predicate AllTails(c: seq<Entry>, s: Store, bpc: nat, sizes: map<nat, nat>)
    requires bpc > 0
  {
    forall obj: nat :: ZeroTail(c, s, bpc, obj, SizeIn(sizes, obj))
  }

  // ----- what is in the store

  function StoredByte(s: Store, bpc: nat, obj: nat, pos: nat): bv8
    requires bpc > 0
  {
    var v := Stored(s, obj, pos / bpc + 1, bpc).data;
    if pos % bpc < |v| then v[pos % bpc] else 0
  }

  /** Every chunk in the store is as it was, or as it is seen now. */
  ghost predicate StoreFrom(s: Store, d: seq<Entry>, t: Store, bpc: nat) {
    forall o: nat, k: nat :: Stored(t, o, k, bpc) == Stored(s, o, k, bpc) || Stored(t, o, k, bpc) == View(d, t, o, k, bpc)
  }

  lemma StoreFromSelf(s: Store, d: seq<Entry>, bpc: nat)
    ensures StoreFrom(s, d, s, bpc)
  {
    hide View; hide Stored;
  }

  lemma StoreFromTrans(s: Store, d: seq<Entry>, t: Store, e: seq<Entry>, u: Store, bpc: nat)
    requires StoreFrom(s, d, t, bpc) && StoreFrom(t, e, u, bpc) && SameView(d, t, e, u, bpc)
    ensures StoreFrom(s, e, u, bpc)
  {
    hide View; hide Stored;
  }

  /** An eviction stores what was and is seen. */
  lemma StoreFromSettled(c: seq<Entry>, s: Store, d: seq<Entry>, t: Store, bpc: nat, grabbed: bool, obj: nat, chunk: nat, data: Chunk)
    requires StoreSettled(c, s, t, bpc, grabbed, obj, chunk) && ChangedView(c, s, d, t, bpc, obj, chunk, data)
    requires Stored(t, obj, chunk, bpc) == Stored(s, obj, chunk, bpc) || Stored(t, obj, chunk, bpc) == data
    ensures StoreFrom(s, d, t, bpc)
  {
    hide View; hide Stored; hide Evicts;
    forall o: nat, k: nat ensures Stored(t, o, k, bpc) == Stored(s, o, k, bpc) || Stored(t, o, k, bpc) == View(d, t, o, k, bpc) {
      if o == obj && k == chunk {
        ViewAfter(c, s, d, t, bpc, obj, chunk, data, o, k);
      } else {
        ViewAfter(c, s, d, t, bpc, obj, chunk, data, o, k);
        assert Stored(t, o, k, bpc) == Saved(c, s, bpc, o, k, grabbed);
      }
    }
  }

  lemma StoreFromSaved(c: seq<Entry>, s: Store, d: seq<Entry>, t: Store, bpc: nat)
    requires SameView(c, s, d, t, bpc) && forall o: nat, k: nat :: Stored(t, o, k, bpc) == Saved(c, s, bpc, o, k, true)
    ensures StoreFrom(s, d, t, bpc)
  {
    hide View; hide Stored; hide Evicts;
  }

  /** With nothing in the cache the store is seen. */
  lemma UncachedByte(s: Store, bpc: nat, obj: nat, pos: nat)
    requires bpc > 0
    ensures ByteOf([], s, bpc, obj, pos) == StoredByte(s, bpc, obj, pos)
  {
  }

  // ----- changes that no reader sees

  ghost predicate Touched(c: seq<Entry>, d: seq<Entry>) {
    |d| == |c| && forall j | 0 <= j < |c| :: d[j] == c[j].(lastUse := d[j].lastUse)
  }

  lemma {:induction false} TouchedSame(c: seq<Entry>, s: Store, d: seq<Entry>, bpc: nat)
    requires Coherent(c, s, bpc) && Touched(c, d)
    ensures Coherent(d, s, bpc) && SameView(c, s, d, s, bpc)
  {
    hide Find;
    forall j | 0 <= j < |d| && d[j].owner > 0 ensures EntryOk(d[j], s, bpc) {
      assert EntryOk(c[j], s, bpc);
    }
    forall obj: nat, chunk: nat ensures View(d, s, obj, chunk, bpc) == View(c, s, obj, chunk, bpc) {
      var i := Find(c, obj, chunk);
      if i >= 0 {
        assert Holds(d[i], obj, chunk);
        FindIs(d, i, obj, chunk);
      } else {
        forall j | 0 <= j < |d| ensures !Holds(d[j], obj, chunk) { assert !Holds(c[j], obj, chunk); }
        FindNone(d, obj, chunk);
      }
    }
  }

  lemma SameViewTrans(a: seq<Entry>, r: Store, c: seq<Entry>, s: Store, d: seq<Entry>, t: Store, bpc: nat)
    requires SameView(a, r, c, s, bpc) && SameView(c, s, d, t, bpc)
    ensures SameView(a, r, d, t, bpc)
  {
    hide View;
  }

  lemma SameViewSelf(c: seq<Entry>, s: Store, bpc: nat)
    ensures SameView(c, s, c, s, bpc)
  {
  }

  lemma SameThenChanged(a: seq<Entry>, r: Store, c: seq<Entry>, s: Store, d: seq<Entry>, t: Store, bpc: nat, obj: nat, chunk: nat, data: Chunk)
    requires SameView(a, r, c, s, bpc) && ChangedView(c, s, d, t, bpc, obj, chunk, data)
    ensures ChangedView(a, r, d, t, bpc, obj, chunk, data)
  {
    hide View;
  }

  lemma ChangedThenSame(a: seq<Entry>, r: Store, c: seq<Entry>, s: Store, d: seq<Entry>, t: Store, bpc: nat, obj: nat, chunk: nat, data: Chunk)
    requires ChangedView(a, r, c, s, bpc, obj, chunk, data) && SameView(c, s, d, t, bpc)
    ensures ChangedView(a, r, d, t, bpc, obj, chunk, data)
  {
    hide View;
  }

  /** No entry came to hold another chunk. */
  ghost predicate FewerHeld(c: seq<Entry>, d: seq<Entry>) {
    |d| == |c| && forall j | 0 <= j < |c| && d[j].owner > 0 :: d[j].owner == c[j].owner && d[j].chunkId == c[j].chunkId
  }

  lemma {:induction false} StillNone(c: seq<Entry>, d: seq<Entry>, obj: nat, chunk: nat)
    requires FewerHeld(c, d) && Find(c, obj, chunk) < 0
    ensures Find(d, obj, chunk) < 0
  {
    hide Find;
    forall j | 0 <= j < |d| ensures !Holds(d[j], obj, chunk) { assert !Holds(c[j], obj, chunk); }
    FindNone(d, obj, chunk);
  }

  // ----- writes that are refused

  /** One chunk reads as it is stored, and nothing else has changed. */
  ghost predicate Reverted(c: seq<Entry>, s: Store, d: seq<Entry>, t: Store, bpc: nat, obj: nat, chunk: nat)
    requires bpc > 0
  {
    forall o: nat, pos: nat :: ByteOf(d, t, bpc, o, pos)
      == if o == obj && pos / bpc + 1 == chunk then StoredByte(s, bpc, obj, pos) else ByteOf(c, s, bpc, o, pos)
  }

  lemma {:induction false} RevertedBytes(c: seq<Entry>, s: Store, d: seq<Entry>, t: Store, bpc: nat, obj: nat, chunk: nat)
    requires bpc > 0 && ChangedView(c, s, d, t, bpc, obj, chunk, Stored(s, obj, chunk, bpc))
    ensures Reverted(c, s, d, t, bpc, obj, chunk)
    ensures !Unstored(c, s, obj, chunk, bpc) ==> SameBytes(c, s, d, t, bpc)
  {
    hide View; hide Stored;
  }

  /** The bytes are written, and the chunk after them reads as it was stored. */
  ghost predicate WroteReverted(c: seq<Entry>, s: Store, d: seq<Entry>, t: Store, bpc: nat, obj: nat, offset: nat, buf: Bytes)
    requires bpc > 0
  {
    forall o: nat, pos: nat :: ByteOf(d, t, bpc, o, pos)
      == if o == obj && offset <= pos < offset + |buf| then buf[pos - offset]
         else if o == obj && pos / bpc == (offset + |buf|) / bpc then StoredByte(s, bpc, obj, pos)
         else ByteOf(c, s, bpc, o, pos)
  }

  /** The first n bytes of a write made room for themselves: only its first piece does, when it is part of a chunk that is
      not in the cache.
   */
  ghost predicate Grabbed(c: seq<Entry>, bpc: nat, obj: nat, offset: nat, n: nat)
    requires bpc > 0
  {
    n > 0 && offset % bpc != 0 && Find(c, obj, offset / bpc + 1) < 0
  }

  /** The chunk after the first n bytes of a write is seen with data that will not be in the store by then. */
  ghost predicate Loses(c: seq<Entry>, s: Store, bpc: nat, obj: nat, offset: nat, n: nat)
    requires bpc > 0
  {
    var chunk := (offset + n) / bpc + 1;
    Unstored(c, s, obj, chunk, bpc) && !(Grabbed(c, bpc, obj, offset, n) && Evicts(c, obj, chunk))
  }

  /** What the store holds of the chunks ahead. */
  ghost predicate Ahead(c: seq<Entry>, s: Store, t: Store, bpc: nat, obj: nat, offset: nat, n: nat)
    requires bpc > 0
  {
    var g := Grabbed(c, bpc, obj, offset, n);
    forall k: nat | k > (offset + n) / bpc :: Stored(t, obj, k, bpc) == Saved(c, s, bpc, obj, k, g)
  }

  lemma AheadNothing(c: seq<Entry>, s: Store, bpc: nat, obj: nat, offset: nat)
    requires bpc > 0
    ensures Ahead(c, s, s, bpc, obj, offset, 0)
  {
    hide View; hide Find;
  }

  lemma {:induction false} NextChunk(at: nat, bpc: nat)
    requires bpc > 0
    ensures at % bpc < bpc && (at + (bpc - at % bpc)) % bpc == 0 && (at + (bpc - at % bpc)) / bpc == at / bpc + 1
  {
    Remainder(at, bpc);
    assert (at / bpc + 1) * bpc == at / bpc * bpc + bpc;
    Bits.DivModUnique(at + (bpc - at % bpc), at / bpc + 1, 0, bpc);
  }

  lemma {:induction false} AheadMore(c: seq<Entry>, s: Store, d: seq<Entry>, r: Store, t: Store, bpc: nat, obj: nat,
                                     offset: nat, n: nat, nCopy: nat)
    requires bpc > 0 && Ahead(c, s, r, bpc, obj, offset, n) && nCopy == bpc - (offset + n) % bpc
    requires n > 0 ==> (offset + n) % bpc == 0
    requires n == 0 ==> d == c && r == s
    requires StoreSettled(d, r, t, bpc, (offset + n) % bpc != 0 && Find(d, obj, (offset + n) / bpc + 1) < 0, obj, (offset + n) / bpc + 1)
    ensures Ahead(c, s, t, bpc, obj, offset, n + nCopy)
  {
    hide View; hide Find; hide Stored;
    NextChunk(offset + n, bpc);
    var g := Grabbed(c, bpc, obj, offset, n + nCopy);
    forall k: nat | k > (offset + (n + nCopy)) / bpc ensures Stored(t, obj, k, bpc) == Saved(c, s, bpc, obj, k, g) {
      assert k > (offset + n) / bpc + 1;
    }
  }

  /** Chunks from the end of a write on are seen as before. */
  lemma {:induction false} ViewAhead(c: seq<Entry>, s: Store, d: seq<Entry>, t: Store, bpc: nat, obj: nat, offset: nat, buf: Bytes)
    requires bpc > 0 && Coherent(c, s, bpc) && Coherent(d, t, bpc) && Wrote(c, s, d, t, bpc, obj, offset, buf)
    requires (offset + |buf|) % bpc == 0
    ensures var k := (offset + |buf|) / bpc + 1; View(d, t, obj, k, bpc).data == View(c, s, obj, k, bpc).data
  {
    hide Coherent; hide Find; hide View; hide Wrote;
    var q := (offset + |buf|) / bpc;
    Remainder(offset + |buf|, bpc);
    ViewLength(c, s, obj, q + 1, bpc);
    ViewLength(d, t, obj, q + 1, bpc);
    var v, w := View(c, s, obj, q + 1, bpc).data, View(d, t, obj, q + 1, bpc).data;
    forall i | 0 <= i < bpc ensures v[i] == w[i] {
      var pos := offset + |buf| + i;
      Bits.DivModUnique(pos, q, i, bpc);
      UnwrittenByte(c, s, d, t, bpc, obj, offset, buf, pos);
    }
    assert v == w;
  }

  lemma UnwrittenByte(c: seq<Entry>, s: Store, d: seq<Entry>, t: Store, bpc: nat, obj: nat, offset: nat, buf: Bytes, pos: nat)
    requires bpc > 0 && Wrote(c, s, d, t, bpc, obj, offset, buf) && pos >= offset + |buf|
    ensures ByteOf(d, t, bpc, obj, pos) == ByteOf(c, s, bpc, obj, pos)
  {
    hide ByteOf;
  }

  /** What a refused write would lose can be told before the first piece. */
  lemma {:induction false} LosesThere(c: seq<Entry>, s: Store, d: seq<Entry>, t: Store, bpc: nat, obj: nat, offset: nat, buf: Bytes)
    requires bpc > 0 && Coherent(c, s, bpc) && Coherent(d, t, bpc) && Wrote(c, s, d, t, bpc, obj, offset, buf)
    requires (offset + |buf|) % bpc == 0 && Ahead(c, s, t, bpc, obj, offset, |buf|)
    ensures var k := (offset + |buf|) / bpc + 1;
            && (Unstored(d, t, obj, k, bpc) <==> Loses(c, s, bpc, obj, offset, |buf|))
            && (Unstored(d, t, obj, k, bpc) ==> Stored(t, obj, k, bpc) == Stored(s, obj, k, bpc))
  {
    hide Coherent; hide Find; hide View; hide Wrote; hide Stored; hide Evicts; hide Grabbed;
    ViewAhead(c, s, d, t, bpc, obj, offset, buf);
  }

  lemma {:induction false} RevertedAfter(a: seq<Entry>, r: Store, c: seq<Entry>, s: Store, d: seq<Entry>, t: Store, bpc: nat,
                                         obj: nat, offset: nat, buf: Bytes)
    requires bpc > 0 && Wrote(a, r, c, s, bpc, obj, offset, buf) && (offset + |buf|) % bpc == 0
    requires Reverted(c, s, d, t, bpc, obj, (offset + |buf|) / bpc + 1)
    requires var k := (offset + |buf|) / bpc + 1; Stored(s, obj, k, bpc) == Stored(r, obj, k, bpc)
    ensures WroteReverted(a, r, d, t, bpc, obj, offset, buf)
  {
    hide ByteOf; hide StoredByte; hide Wrote; hide Reverted;
    forall o: nat, pos: nat ensures ByteOf(d, t, bpc, o, pos)
      == if o == obj && offset <= pos < offset + |buf| then buf[pos - offset]
         else if o == obj && pos / bpc == (offset + |buf|) / bpc then StoredByte(r, bpc, obj, pos)
         else ByteOf(a, r, bpc, o, pos)
    {
      RevertedAt(a, r, c, s, d, t, bpc, obj, offset, buf, o, pos);
    }
  }

  lemma {:induction false} RevertedAt(a: seq<Entry>, r: Store, c: seq<Entry>, s: Store, d: seq<Entry>, t: Store, bpc: nat,
                                      obj: nat, offset: nat, buf: Bytes, o: nat, pos: nat)
    requires bpc > 0 && Wrote(a, r, c, s, bpc, obj, offset, buf) && (offset + |buf|) % bpc == 0
    requires Reverted(c, s, d, t, bpc, obj, (offset + |buf|) / bpc + 1)
    requires var k := (offset + |buf|) / bpc + 1; Stored(s, obj, k, bpc) == Stored(r, obj, k, bpc)
    ensures ByteOf(d, t, bpc, o, pos)
      == if o == obj && offset <= pos < offset + |buf| then buf[pos - offset]
         else if o == obj && pos / bpc == (offset + |buf|) / bpc then StoredByte(r, bpc, obj, pos)
         else ByteOf(a, r, bpc, o, pos)
  {
    hide ByteOf; hide Stored;
    Remainder(offset + |buf|, bpc); Remainder(pos, bpc);
    var q := (offset + |buf|) / bpc;
    assert pos / bpc == q ==> pos >= offset + |buf|;
    if pos / bpc == q && o == obj {
      assert StoredByte(s, bpc, obj, pos) == StoredByte(r, bpc, obj, pos);
    }
  }

  lemma Differ(v: Bytes, w: Bytes) returns (i: nat)
    requires |v| == |w| && v != w
    ensures i < |v| && v[i] != w[i]
  {
    i :| i < |v| && v[i] != w[i];
  }

  /** A refused write that loses data changes a byte that it never wrote. */
  lemma {:induction false} LossSeen(c: seq<Entry>, s: Store, d: seq<Entry>, t: Store, bpc: nat, obj: nat, offset: nat, buf: Bytes)
    requires bpc > 0 && Coherent(c, s, bpc) && (offset + |buf|) % bpc == 0
    requires Loses(c, s, bpc, obj, offset, |buf|) && WroteReverted(c, s, d, t, bpc, obj, offset, buf)
    ensures exists pos: nat :: pos >= offset + |buf| && ByteOf(d, t, bpc, obj, pos) != ByteOf(c, s, bpc, obj, pos)
  {
    hide Coherent; hide Find; hide View; hide Stored; hide WroteReverted;
    var q := (offset + |buf|) / bpc;
    Remainder(offset + |buf|, bpc);
    ViewLength(c, s, obj, q + 1, bpc);
    StoredLength(c, s, obj, q + 1, bpc);
    var v, w := View(c, s, obj, q + 1, bpc).data, Stored(s, obj, q + 1, bpc).data;
    var i := Differ(v, w);
    var pos := offset + |buf| + i;
    Bits.DivModUnique(pos, q, i, bpc);
    RevertedByte(c, s, d, t, bpc, obj, offset, buf, pos);
  }

  lemma RevertedByte(c: seq<Entry>, s: Store, d: seq<Entry>, t: Store, bpc: nat, obj: nat, offset: nat, buf: Bytes, pos: nat)
    requires bpc > 0 && WroteReverted(c, s, d, t, bpc, obj, offset, buf)
    requires pos >= offset + |buf| && pos / bpc == (offset + |buf|) / bpc
    ensures ByteOf(d, t, bpc, obj, pos) == StoredByte(s, bpc, obj, pos)
  {
    hide ByteOf; hide StoredByte;
  }

  lemma {:induction false} FlushStores(c: seq<Entry>, s: Store, d: seq<Entry>, t: Store, bpc: nat, i: nat)
    requires Coherent(c, s, bpc) && i < |c| && c[i].owner > 0 && SameView(c, s, d, t, bpc)
    requires t == if c[i].dirty then s[(c[i].owner, c[i].chunkId) := Chunk(c[i].data, c[i].nBytes)] else s
    ensures StoreFrom(s, d, t, bpc)
  {
    hide Find;
    ViewOfEntry(c, s, bpc, i);
    hide View;
  }

  /** The sizes when a file reaches at least to some end. */
  function Larger(sizes: map<nat, nat>, obj: nat, end: nat): map<nat, nat> {
    if end > SizeIn(sizes, obj) then sizes[obj := end] else sizes
  }

  /** Every byte in the store is as it was, as it was seen, or as it has been written. */
  ghost predicate StoredWrote(c: seq<Entry>, s: Store, t: Store, bpc: nat, obj: nat, offset: nat, x: Bytes)
    requires bpc > 0
  {
    forall o: nat, pos: nat :: StoredFrom(c, s, bpc, obj, offset, x, o, pos, ByteOf([], t, bpc, o, pos))
  }

  ghost predicate StoredFrom(c: seq<Entry>, s: Store, bpc: nat, obj: nat, offset: nat, x: Bytes, o: nat, pos: nat, v: bv8)
    requires bpc > 0
  {
    || v == ByteOf([], s, bpc, o, pos) || v == ByteOf(c, s, bpc, o, pos)
    || (o == obj && offset <= pos < offset + |x| && v == x[pos - offset])
  }

  lemma StoredNothing(c: seq<Entry>, s: Store, bpc: nat, obj: nat, offset: nat)
    requires bpc > 0
    ensures StoredWrote(c, s, s, bpc, obj, offset, [])
  {
    hide ByteOf;
  }

  /** One more piece of a write. */
  lemma {:induction false} WroteStored(c: seq<Entry>, s: Store, r: Store, d: seq<Entry>, t: Store, bpc: nat, obj: nat, offset: nat,
                                       x: Bytes, y: Bytes)
    requires bpc > 0 && x <= y && StoredWrote(c, s, r, bpc, obj, offset, x) && StoreFrom(r, d, t, bpc) && Wrote(c, s, d, t, bpc, obj, offset, y)
    ensures StoredWrote(c, s, t, bpc, obj, offset, y)
  {
    hide ByteOf; hide Wrote; hide StoreFrom;
    forall o: nat, pos: nat ensures StoredFrom(c, s, bpc, obj, offset, y, o, pos, ByteOf([], t, bpc, o, pos)) {
      assert StoredFrom(c, s, bpc, obj, offset, x, o, pos, ByteOf([], r, bpc, o, pos));
      StoredByteFrom(r, d, t, bpc, o, pos);
      WroteByte(c, s, d, t, bpc, obj, offset, y, o, pos);
    }
  }

  lemma StoredByteFrom(s: Store, d: seq<Entry>, t: Store, bpc: nat, o: nat, pos: nat)
    requires bpc > 0 && StoreFrom(s, d, t, bpc)
    ensures ByteOf([], t, bpc, o, pos) in {ByteOf([], s, bpc, o, pos), ByteOf(d, t, bpc, o, pos)}
  {
    hide Stored; hide Find;
    NotHeld([], o, pos / bpc + 1);
  }

  lemma WroteByte(c: seq<Entry>, s: Store, d: seq<Entry>, t: Store, bpc: nat, obj: nat, offset: nat, x: Bytes, o: nat, pos: nat)
    requires bpc > 0 && Wrote(c, s, d, t, bpc, obj, offset, x)
    ensures ByteOf(d, t, bpc, o, pos) == if o == obj && offset <= pos < offset + |x| then x[pos - offset] else ByteOf(c, s, bpc, o, pos)
  {
    hide ByteOf;
  }

  /** The store keeps zeros past the end of each file, as long as nothing else is written there. */
  lemma {:induction false} StoredTailsKept(c: seq<Entry>, s: Store, t: Store, bpc: nat, obj: nat, offset: nat, x: Bytes,
                                           before: map<nat, nat>, after: map<nat, nat>)
    requires bpc > 0 && AllTails(c, s, bpc, before) && AllTails([], s, bpc, before) && StoredWrote(c, s, t, bpc, obj, offset, x)
    requires forall o: nat :: SizeIn(after, o) >= SizeIn(before, o)
    requires SizeIn(after, obj) >= offset + |x| || forall i | 0 <= i < |x| :: x[i] == 0
    ensures AllTails([], t, bpc, after)
  {
    hide ByteOf;
    forall o: nat, pos: nat | pos >= SizeIn(after, o) ensures ByteOf([], t, bpc, o, pos) == 0 {
      assert ZeroTail(c, s, bpc, o, SizeIn(before, o)) && ZeroTail([], s, bpc, o, SizeIn(before, o));
      assert StoredFrom(c, s, bpc, obj, offset, x, o, pos, ByteOf([], t, bpc, o, pos));
    }
  }

  /** A chunk that reads as it is stored is zero past the end of its file, like the rest. */
  lemma {:induction false} RevertedTails(c: seq<Entry>, s: Store, d: seq<Entry>, t: Store, bpc: nat, obj: nat, offset: nat, x: Bytes,
                                         sizes: map<nat, nat>)
    requires bpc > 0 && AllTails(c, s, bpc, sizes) && AllTails([], s, bpc, sizes) && WroteReverted(c, s, d, t, bpc, obj, offset, x)
    ensures AllTails(d, t, bpc, Larger(sizes, obj, offset + |x|))
  {
    hide ByteOf; hide StoredByte;
    var after := Larger(sizes, obj, offset + |x|);
    forall o: nat, pos: nat | pos >= SizeIn(after, o) ensures ByteOf(d, t, bpc, o, pos) == 0 {
      assert ZeroTail(c, s, bpc, o, SizeIn(sizes, o)) && ZeroTail([], s, bpc, o, SizeIn(sizes, o));
      UncachedByte(s, bpc, o, pos);
    }
  }

  lemma NoVictim(c: seq<Entry>)
    requires c == []
    ensures forall o: nat, k: nat :: !Evicts(c, o, k)
  {
  }

  // ----- how many bytes of a chunk count

  /** A write of n bytes reaches into chunk k. */
  predicate Reaches(offset: nat, n: nat, k: nat, bpc: nat) {
    k > 0 && n > 0 && (k - 1) * bpc < offset + n && offset < k * bpc
  }

  /** The bytes of a file of some size that lie in chunk k. */
  function Filled(size: nat, k: nat, bpc: nat): nat {
    if k == 0 || size <= (k - 1) * bpc then 0 else if size - (k - 1) * bpc > bpc then bpc else size - (k - 1) * bpc
  }

  /** Every chunk that was written counts all bytes of the file in it. */
  ghost predicate CountsFilled(d: seq<Entry>, t: Store, bpc: nat, obj: nat, offset: nat, n: nat, size: nat) {
    forall k: nat | Reaches(offset, n, k, bpc) :: View(d, t, obj, k, bpc).nBytes == Filled(size, k, bpc)
  }

  /** No byte past the count is other than zero. */
  ghost predicate ZeroPast(v: Chunk, bpc: nat) {
    v.nBytes <= bpc && forall i | v.nBytes <= i < |v.data| :: v.data[i] == 0
  }

  /** No byte past the end of the file is counted. */
  ghost predicate Inside(v: Chunk, k: nat, size: nat, bpc: nat) {
    v.nBytes > 0 ==> k > 0 && (k - 1) * bpc + v.nBytes <= size
  }

  ghost predicate CountsOf(c: seq<Entry>, s: Store, bpc: nat, sizes: map<nat, nat>, inside: bool) {
    forall o: nat, k: nat :: ZeroPast(View(c, s, o, k, bpc), bpc) && (inside ==> Inside(View(c, s, o, k, bpc), k, SizeIn(sizes, o), bpc))
  }

  /** The counts of what is seen and of what is stored. */
  ghost predicate AllCounts(c: seq<Entry>, s: Store, bpc: nat, sizes: map<nat, nat>, inside: bool) {
    CountsOf(c, s, bpc, sizes, inside) && CountsOf([], s, bpc, sizes, inside)
  }

  lemma CountAt(c: seq<Entry>, s: Store, bpc: nat, sizes: map<nat, nat>, inside: bool, o: nat, k: nat)
    requires CountsOf(c, s, bpc, sizes, inside)
    ensures ZeroPast(View(c, s, o, k, bpc), bpc) && (inside ==> Inside(View(c, s, o, k, bpc), k, SizeIn(sizes, o), bpc))
  {
    hide View; hide ZeroPast; hide Inside;
  }

  lemma StoredIsView(s: Store, o: nat, k: nat, bpc: nat)
    ensures View([], s, o, k, bpc) == Stored(s, o, k, bpc)
  {
  }

  /** What is stored counts rightly when every stored chunk is as it was or as it is seen. */
  lemma {:induction false} CountsStored(s: Store, d: seq<Entry>, t: Store, bpc: nat, before: map<nat, nat>, after: map<nat, nat>, inside: bool)
    requires CountsOf([], s, bpc, before, inside) && CountsOf(d, t, bpc, after, inside) && StoreFrom(s, d, t, bpc)
    requires forall o: nat :: SizeIn(after, o) >= SizeIn(before, o)
    ensures CountsOf([], t, bpc, after, inside)
  {
    hide View; hide ZeroPast; hide Stored; hide CountsOf;
    forall o: nat, k: nat
      ensures ZeroPast(View([], t, o, k, bpc), bpc) && (inside ==> Inside(View([], t, o, k, bpc), k, SizeIn(after, o), bpc))
    {
      StoredIsView(s, o, k, bpc); StoredIsView(t, o, k, bpc);
      CountAt([], s, bpc, before, inside, o, k); CountAt(d, t, bpc, after, inside, o, k);
    }
    CountsMean([], t, bpc, after, inside);
  }

  lemma CountsMean(c: seq<Entry>, s: Store, bpc: nat, sizes: map<nat, nat>, inside: bool)
    requires forall o: nat, k: nat :: ZeroPast(View(c, s, o, k, bpc), bpc) && (inside ==> Inside(View(c, s, o, k, bpc), k, SizeIn(sizes, o), bpc))
    ensures CountsOf(c, s, bpc, sizes, inside)
  {
  }

  /** Changes that no reader sees keep all counts. */
  lemma {:induction false} CountsSame(c: seq<Entry>, s: Store, d: seq<Entry>, t: Store, bpc: nat, sizes: map<nat, nat>, inside: bool)
    requires AllCounts(c, s, bpc, sizes, inside) && SameView(c, s, d, t, bpc) && StoreFrom(s, d, t, bpc)
    ensures AllCounts(d, t, bpc, sizes, inside)
  {
    hide View; hide ZeroPast; hide Inside; hide StoreFrom;
    CountsStored(s, d, t, bpc, sizes, sizes, inside);
  }

  lemma {:induction false} CountsLarger(c: seq<Entry>, s: Store, bpc: nat, before: map<nat, nat>, after: map<nat, nat>, inside: bool)
    requires CountsOf(c, s, bpc, before, inside) && forall o: nat :: SizeIn(after, o) >= SizeIn(before, o)
    ensures CountsOf(c, s, bpc, after, inside)
  {
    hide View; hide ZeroPast;
    forall o: nat, k: nat ensures inside ==> Inside(View(c, s, o, k, bpc), k, SizeIn(after, o), bpc) {
      CountAt(c, s, bpc, before, inside, o, k);
    }
  }

  /** One chunk has a new count, and the others are as they were. */
  ghost predicate OneCounted(c: seq<Entry>, s: Store, d: seq<Entry>, t: Store, bpc: nat, obj: nat, chunk: nat, n: nat) {
    forall o: nat, k: nat :: if o == obj && k == chunk then View(d, t, o, k, bpc).nBytes == n else View(d, t, o, k, bpc) == View(c, s, o, k, bpc)
  }

  lemma ChangedCount(c: seq<Entry>, s: Store, d: seq<Entry>, t: Store, bpc: nat, obj: nat, chunk: nat, v: Chunk)
    requires ChangedView(c, s, d, t, bpc, obj, chunk, v)
    ensures OneCounted(c, s, d, t, bpc, obj, chunk, v.nBytes)
  {
    hide View;
  }

  /** A refused write: one chunk may be as it is stored, and the others are as they were. */
  ghost predicate Forgotten(c: seq<Entry>, s: Store, d: seq<Entry>, bpc: nat, obj: nat, chunk: nat, past: bool) {
    forall o: nat, k: nat :: View(d, s, o, k, bpc) == View(c, s, o, k, bpc)
                             || (past && o == obj && k == chunk && View(d, s, o, k, bpc) == Stored(s, o, k, bpc))
  }

  lemma ForgottenNot(c: seq<Entry>, s: Store, d: seq<Entry>, bpc: nat, obj: nat, chunk: nat, past: bool)
    requires SameView(c, s, d, s, bpc) || (past && ChangedView(c, s, d, s, bpc, obj, chunk, Stored(s, obj, chunk, bpc)))
    ensures Forgotten(c, s, d, bpc, obj, chunk, past)
  {
    hide View; hide Stored;
  }

  lemma {:induction false} CountsForgotten(c: seq<Entry>, s: Store, d: seq<Entry>, bpc: nat, obj: nat, chunk: nat, past: bool,
                                           sizes: map<nat, nat>, inside: bool)
    requires AllCounts(c, s, bpc, sizes, inside) && Forgotten(c, s, d, bpc, obj, chunk, past)
    ensures AllCounts(d, s, bpc, sizes, inside)
  {
    hide View; hide ZeroPast; hide Inside; hide Stored;
    forall o: nat, k: nat
      ensures ZeroPast(View(d, s, o, k, bpc), bpc) && (inside ==> Inside(View(d, s, o, k, bpc), k, SizeIn(sizes, o), bpc))
    {
      StoredIsView(s, o, k, bpc);
      CountAt(c, s, bpc, sizes, inside, o, k); CountAt([], s, bpc, sizes, inside, o, k);
    }
  }

  /** A chunk that counts all bytes of a file which is zero past its end. */
  lemma {:induction false} FilledCounts(d: seq<Entry>, t: Store, bpc: nat, obj: nat, k: nat, size: nat)
    requires bpc > 0 && k > 0 && |View(d, t, obj, k, bpc).data| == bpc && View(d, t, obj, k, bpc).nBytes == Filled(size, k, bpc)
    requires ZeroTail(d, t, bpc, obj, size)
    ensures ZeroPast(View(d, t, obj, k, bpc), bpc) && Inside(View(d, t, obj, k, bpc), k, size, bpc)
  {
    hide View;
    var v := View(d, t, obj, k, bpc);
    forall i | v.nBytes <= i < |v.data| ensures v.data[i] == 0 {
      var pos := (k - 1) * bpc + i;
      Bits.DivModUnique(pos, k - 1, i, bpc);
      assert ByteOf(d, t, bpc, obj, pos) == 0;
    }
  }

  lemma {:induction false} CountsWrote(c: seq<Entry>, s: Store, d: seq<Entry>, t: Store, bpc: nat, obj: nat, chunk: nat,
                                       before: map<nat, nat>, after: map<nat, nat>, inside: bool)
    requires bpc > 0 && chunk > 0 && AllCounts(c, s, bpc, before, inside) && StoreFrom(s, d, t, bpc)
    requires OneCounted(c, s, d, t, bpc, obj, chunk, Filled(SizeIn(after, obj), chunk, bpc)) && |View(d, t, obj, chunk, bpc).data| == bpc
    requires ZeroTail(d, t, bpc, obj, SizeIn(after, obj)) && forall o: nat :: SizeIn(after, o) >= SizeIn(before, o)
    ensures AllCounts(d, t, bpc, after, inside)
  {
    hide View; hide ZeroPast; hide StoreFrom; hide ZeroTail; hide Filled;
    FilledCounts(d, t, bpc, obj, chunk, SizeIn(after, obj));
    forall o: nat, k: nat
      ensures ZeroPast(View(d, t, o, k, bpc), bpc) && (inside ==> Inside(View(d, t, o, k, bpc), k, SizeIn(after, o), bpc))
    {
      CountAt(c, s, bpc, before, inside, o, k);
    }
    CountsMean(d, t, bpc, after, inside);
    CountsStored(s, d, t, bpc, before, after, inside);
  }

  /** What a write of n bytes has done to the chunks: those it reaches count all their bytes, and the others are as they
      were; only the next one, when its write is refused, may be as it was stored.
   */
  ghost predicate Counted(c: seq<Entry>, s: Store, d: seq<Entry>, t: Store, bpc: nat, obj: nat, offset: nat, n: nat, size: nat, refused: bool)
    requires bpc > 0
  {
    forall o: nat, k: nat ::
      if o == obj && Reaches(offset, n, k, bpc) then View(d, t, o, k, bpc).nBytes == Filled(size, k, bpc)
      else View(d, t, o, k, bpc) == View(c, s, o, k, bpc)
           || (refused && o == obj && k == (offset + n) / bpc + 1 && View(d, t, o, k, bpc) == Stored(s, o, k, bpc))
  }

  /** A write that has come to its n-th byte, on a file that will reach at least there. */
  ghost predicate Counting(c: seq<Entry>, s: Store, d: seq<Entry>, t: Store, bpc: nat, obj: nat, offset: nat, n: nat,
                           sizes: map<nat, nat>, inside: bool, refused: bool)
    requires bpc > 0
  {
    var after := Larger(sizes, obj, offset + n);
    Counted(c, s, d, t, bpc, obj, offset, n, SizeIn(after, obj), refused) && AllCounts(d, t, bpc, after, inside)
  }

  lemma {:induction false} CountingBegins(c: seq<Entry>, s: Store, bpc: nat, obj: nat, offset: nat, sizes: map<nat, nat>, inside: bool)
    requires bpc > 0 && AllCounts(c, s, bpc, sizes, inside)
    ensures Counting(c, s, c, s, bpc, obj, offset, 0, sizes, inside, false)
  {
    hide View; hide CountsOf;
    var after := Larger(sizes, obj, offset);
    CountsLarger(c, s, bpc, sizes, after, inside);
    CountsLarger([], s, bpc, sizes, after, inside);
  }

  /** The chunks that one more piece reaches. */
  lemma {:induction false} ReachesMore(offset: nat, n: nat, nCopy: nat, bpc: nat, k: nat)
    requires bpc > 0 && 0 < nCopy <= bpc - (offset + n) % bpc && (n > 0 ==> (offset + n) % bpc == 0)
    ensures Reaches(offset, n + nCopy, k, bpc) <==> Reaches(offset, n, k, bpc) || k == (offset + n) / bpc + 1
    ensures Reaches(offset, n, k, bpc) ==> k * bpc <= offset + n && k != (offset + n) / bpc + 1
  {
    var at := offset + n;
    Remainder(at, bpc);
    var q := at / bpc;
    assert (q + 1) * bpc == q * bpc + bpc;
    if k > 0 {
      assert k * bpc == (k - 1) * bpc + bpc;
      if k - 1 < q { Bits.MulMonotone(k, q, bpc); }
      if k - 1 > q { Bits.MulMonotone(q + 1, k - 1, bpc); }
    }
  }

  lemma FilledWhole(k: nat, size: nat, more: nat, bpc: nat)
    requires k > 0 && k * bpc <= size <= more
    ensures Filled(size, k, bpc) == Filled(more, k, bpc) == bpc
  {
    assert k * bpc == (k - 1) * bpc + bpc;
  }

  lemma {:induction false} CountedMore(c: seq<Entry>, s: Store, c1: seq<Entry>, s1: Store, d: seq<Entry>, t: Store, bpc: nat, obj: nat,
                                       offset: nat, n: nat, nCopy: nat, size: nat, more: nat)
    requires bpc > 0 && Counted(c, s, c1, s1, bpc, obj, offset, n, size, false)
    requires 0 < nCopy <= bpc - (offset + n) % bpc && (n > 0 ==> (offset + n) % bpc == 0) && offset + n <= size <= more
    requires OneCounted(c1, s1, d, t, bpc, obj, (offset + n) / bpc + 1, Filled(more, (offset + n) / bpc + 1, bpc))
    ensures Counted(c, s, d, t, bpc, obj, offset, n + nCopy, more, false)
  {
    hide View; hide Reaches; hide Filled;
    forall o: nat, k: nat
      ensures if o == obj && Reaches(offset, n + nCopy, k, bpc) then View(d, t, o, k, bpc).nBytes == Filled(more, k, bpc)
              else View(d, t, o, k, bpc) == View(c, s, o, k, bpc)
    {
      ReachesMore(offset, n, nCopy, bpc, k);
      if Reaches(offset, n, k, bpc) {
        ReachedPositive(offset, n, k, bpc);
        FilledWhole(k, size, more, bpc);
      }
    }
  }

  lemma ReachedPositive(offset: nat, n: nat, k: nat, bpc: nat)
    requires Reaches(offset, n, k, bpc)
    ensures k > 0
  {
  }

  lemma LargerSize(sizes: map<nat, nat>, obj: nat, end: nat, more: nat)
    requires end <= more
    ensures SizeIn(Larger(sizes, obj, end), obj) >= end
    ensures forall o: nat :: SizeIn(Larger(sizes, obj, more), o) >= SizeIn(Larger(sizes, obj, end), o)
    ensures forall o: nat :: SizeIn(Larger(sizes, obj, more), o) >= SizeIn(sizes, o)
  {
  }

  lemma {:induction false} CountingMore(c: seq<Entry>, s: Store, c1: seq<Entry>, s1: Store, d: seq<Entry>, t: Store, bpc: nat, obj: nat,
                                        offset: nat, n: nat, nCopy: nat, sizes: map<nat, nat>, inside: bool)
    requires bpc > 0 && Counting(c, s, c1, s1, bpc, obj, offset, n, sizes, inside, false)
    requires 0 < nCopy <= bpc - (offset + n) % bpc && (n > 0 ==> (offset + n) % bpc == 0)
    requires var after := Larger(sizes, obj, offset + n + nCopy); var chunk := (offset + n) / bpc + 1;
      && OneCounted(c1, s1, d, t, bpc, obj, chunk, Filled(SizeIn(after, obj), chunk, bpc)) && |View(d, t, obj, chunk, bpc).data| == bpc
      && AllTails(d, t, bpc, after)
    requires StoreFrom(s1, d, t, bpc)
    ensures Counting(c, s, d, t, bpc, obj, offset, n + nCopy, sizes, inside, false)
  {
    hide View; hide Counted; hide AllCounts; hide OneCounted; hide Filled; hide StoreFrom; hide ZeroTail; hide Larger;
    LargerSize(sizes, obj, offset + n, offset + n + nCopy);
    var before, after := Larger(sizes, obj, offset + n), Larger(sizes, obj, offset + n + nCopy);
    CountedMore(c, s, c1, s1, d, t, bpc, obj, offset, n, nCopy, SizeIn(before, obj), SizeIn(after, obj));
    CountsWrote(c1, s1, d, t, bpc, obj, (offset + n) / bpc + 1, before, after, inside);
  }

  /** A refused write. */
  lemma {:induction false} CountingRefused(c: seq<Entry>, s: Store, c1: seq<Entry>, s1: Store, d: seq<Entry>, bpc: nat, obj: nat,
                                           offset: nat, n: nat, sizes: map<nat, nat>, inside: bool, past: bool)
    requires bpc > 0 && Counting(c, s, c1, s1, bpc, obj, offset, n, sizes, inside, false)
    requires Forgotten(c1, s1, d, bpc, obj, (offset + n) / bpc + 1, past) && (n > 0 ==> (offset + n) % bpc == 0)
    requires past ==> Stored(s1, obj, (offset + n) / bpc + 1, bpc) in {View(c, s, obj, (offset + n) / bpc + 1, bpc), Stored(s, obj, (offset + n) / bpc + 1, bpc)}
    ensures Counting(c, s, d, s1, bpc, obj, offset, n, sizes, inside, true)
  {
    hide View; hide AllCounts; hide Reaches; hide Filled; hide Stored; hide Larger;
    CountsForgotten(c1, s1, d, bpc, obj, (offset + n) / bpc + 1, past, Larger(sizes, obj, offset + n), inside);
    Remainder(offset + n, bpc);
    ReachesMore(offset, n, bpc - (offset + n) % bpc, bpc, (offset + n) / bpc + 1);
  }

  /** What the counting comes to. */
  lemma CountingMeans(c: seq<Entry>, s: Store, d: seq<Entry>, t: Store, bpc: nat, obj: nat, offset: nat, n: nat,
                      sizes: map<nat, nat>, inside: bool, refused: bool)
    requires bpc > 0 && Counting(c, s, d, t, bpc, obj, offset, n, sizes, inside, refused)
    ensures var after := Larger(sizes, obj, offset + n);
      AllCounts(d, t, bpc, after, inside) && CountsFilled(d, t, bpc, obj, offset, n, SizeIn(after, obj))
  {
    hide View; hide AllCounts; hide Reaches; hide Filled; hide Stored;
  }

  /** In a run of changes of the store alone, what is seen of a chunk is as it was or as it is stored. */
  lemma {:induction false} ViewOrStored(c: seq<Entry>, s: Store, t: Store, bpc: nat, o: nat, k: nat)
    requires Coherent(c, t, bpc)
    ensures View(c, t, o, k, bpc) == View(c, s, o, k, bpc) || View(c, t, o, k, bpc) == Stored(t, o, k, bpc)
  {
    hide Find;
    var i := Find(c, o, k);
    if i >= 0 { assert EntryOk(c[i], t, bpc); }
  }

  /** The store is cut, and no chunk of the file is in the cache, or its counts may reach past its end. */
  lemma {:induction false} CountsCut(c: seq<Entry>, s: Store, t: Store, bpc: nat, obj: nat, newSize: nat, sizes: map<nat, nat>, inside: bool)
    requires Coherent(c, t, bpc) && CountsOf(c, s, bpc, sizes, inside) && CountsOf([], t, bpc, sizes[obj := newSize], inside)
    requires inside ==> forall j | 0 <= j < |c| :: c[j].owner != obj
    ensures AllCounts(c, t, bpc, sizes[obj := newSize], inside)
  {
    hide View; hide ZeroPast; hide Inside; hide Stored; hide CountsOf; hide Coherent;
    forall o: nat, k: nat
      ensures ZeroPast(View(c, t, o, k, bpc), bpc) && (inside ==> Inside(View(c, t, o, k, bpc), k, SizeIn(sizes[obj := newSize], o), bpc))
    {
      ViewOrStored(c, s, t, bpc, o, k);
      StoredIsView(t, o, k, bpc);
      CountAt(c, s, bpc, sizes, inside, o, k); CountAt([], t, bpc, sizes[obj := newSize], inside, o, k);
      if inside && o == obj { UncachedView(c, t, bpc, o, k); }
    }
    CountsMean(c, t, bpc, sizes[obj := newSize], inside);
  }

  /** Cutting a file in the store and not in the cache, as TakeBack does, keeps every count inside the file if and only if no
      dirty entry of the file counts bytes past its new end.
   */
  lemma {:induction false} CutInsideIff(c: seq<Entry>, s: Store, t: Store, bpc: nat, obj: nat, newSize: nat, sizes: map<nat, nat>)
    requires Coherent(c, t, bpc) && CountsOf(c, s, bpc, sizes, true) && CountsOf([], t, bpc, sizes[obj := newSize], true) && obj > 0
    ensures CountsOf(c, t, bpc, sizes[obj := newSize], true)
       <==> forall j | 0 <= j < |c| && c[j].owner == obj && c[j].dirty :: Inside(Chunk(c[j].data, c[j].nBytes), c[j].chunkId, newSize, bpc)
  {
    hide View; hide ZeroPast; hide Inside; hide Stored; hide CountsOf; hide Coherent;
    var after := sizes[obj := newSize];
    CoherentUnique(c, t, bpc);
    if CountsOf(c, t, bpc, after, true) {
      forall j | 0 <= j < |c| && c[j].owner == obj && c[j].dirty ensures Inside(Chunk(c[j].data, c[j].nBytes), c[j].chunkId, newSize, bpc) {
        ViewOfEntry(c, t, bpc, j);
        CountAt(c, t, bpc, after, true, obj, c[j].chunkId);
      }
    } else {
      CutInside(c, s, t, bpc, obj, newSize, sizes);
    }
  }

  lemma {:induction false} CutInside(c: seq<Entry>, s: Store, t: Store, bpc: nat, obj: nat, newSize: nat, sizes: map<nat, nat>)
    requires Coherent(c, t, bpc) && CountsOf(c, s, bpc, sizes, true) && CountsOf([], t, bpc, sizes[obj := newSize], true) && obj > 0
    ensures (forall j | 0 <= j < |c| && c[j].owner == obj && c[j].dirty :: Inside(Chunk(c[j].data, c[j].nBytes), c[j].chunkId, newSize, bpc))
       ==> CountsOf(c, t, bpc, sizes[obj := newSize], true)
  {
    hide View; hide ZeroPast; hide Inside; hide Stored; hide CountsOf; hide Coherent;
    var after := sizes[obj := newSize];
    if forall j | 0 <= j < |c| && c[j].owner == obj && c[j].dirty :: Inside(Chunk(c[j].data, c[j].nBytes), c[j].chunkId, newSize, bpc) {
      forall o: nat, k: nat ensures ZeroPast(View(c, t, o, k, bpc), bpc) && Inside(View(c, t, o, k, bpc), k, SizeIn(after, o), bpc) {
        ViewOrStored(c, s, t, bpc, o, k);
        DirtyOrStored(c, t, bpc, o, k);
        StoredIsView(t, o, k, bpc);
        CountAt(c, s, bpc, sizes, true, o, k); CountAt([], t, bpc, after, true, o, k);
      }
      CountsMean(c, t, bpc, after, true);
    }
  }

  /** What is seen of a chunk is a dirty entry or the store. */
  lemma {:induction false} DirtyOrStored(c: seq<Entry>, t: Store, bpc: nat, o: nat, k: nat)
    requires Coherent(c, t, bpc)
    ensures View(c, t, o, k, bpc) == Stored(t, o, k, bpc)
         || exists j :: 0 <= j < |c| && Holds(c[j], o, k) && c[j].dirty && View(c, t, o, k, bpc) == Chunk(c[j].data, c[j].nBytes)
  {
    hide Find;
    var i := Find(c, o, k);
    if i >= 0 { assert EntryOk(c[i], t, bpc); }
  }

  /** A zero that a hole of one byte put in the cache of an empty file: the file reads right, but the byte is counted. */
  lemma CountedPastEnd()
    ensures var c := [Entry(1, 1, 1, true, 1, [0])];
      Coherent(c, map[], 1) && AllTails(c, map[], 1, map[1 := 0]) && CountsOf(c, map[], 1, map[1 := 0], false) && !CountsOf(c, map[], 1, map[1 := 0], true)
  {
    var c: seq<Entry> := [Entry(1, 1, 1, true, 1, [0])];
    hide Find;
    ViewOfEntry(c, map[], 1, 0);
    assert !Inside(View(c, map[], 1, 1, 1), 1, 0, 1);
    forall o: nat, k: nat ensures ZeroPast(View(c, map[], o, k, 1), 1) && View(c, map[], o, k, 1).data == [0] {
      if Holds(c[0], o, k) { FindIs(c, 0, o, k); } else { FindNone(c, o, k); }
    }
  }

  lemma UncachedView(c: seq<Entry>, t: Store, bpc: nat, o: nat, k: nat)
    requires forall j | 0 <= j < |c| :: c[j].owner != o
    ensures View(c, t, o, k, bpc) == Stored(t, o, k, bpc)
  {
    NotHeld(c, o, k);
  }

  /** The counts in a store that was cut. */
  lemma {:induction false} CutCounts(s: Store, t: Store, u: Store, bpc: nat, obj: nat, newSize: nat, sizes: map<nat, nat>, inside: bool)
    requires bpc > 0 && newSize <= SizeIn(sizes, obj) && CountsOf([], s, bpc, sizes, inside) && Rem(newSize, bpc) < bpc
    requires ChunksZeroed([], s, t, bpc, obj, Quot(newSize + bpc - 1, bpc) + 1, LastDel(SizeIn(sizes, obj), bpc))
    requires LastKept([], t, u, bpc, obj, Quot(newSize, bpc) + 1, Rem(newSize, bpc))
    ensures CountsOf([], u, bpc, sizes[obj := newSize], inside)
  {
    hide View; hide ZeroPast; hide Inside; hide CountsOf; hide ChunksZeroed; hide LastKept; hide Quot; hide Rem; hide LastDel;
    forall o: nat, k: nat
      ensures ZeroPast(View([], u, o, k, bpc), bpc) && (inside ==> Inside(View([], u, o, k, bpc), k, SizeIn(sizes[obj := newSize], o), bpc))
    {
      CountAt([], s, bpc, sizes, inside, o, k);
      ZeroedView(s, t, bpc, obj, Quot(newSize + bpc - 1, bpc) + 1, LastDel(SizeIn(sizes, obj), bpc), o, k);
      KeptView(t, u, bpc, obj, Quot(newSize, bpc) + 1, Rem(newSize, bpc), o, k);
      if o == obj { CutCount(View([], s, o, k, bpc), View([], t, o, k, bpc), View([], u, o, k, bpc), k, newSize, SizeIn(sizes, obj), bpc, inside); }
    }
    CountsMean([], u, bpc, sizes[obj := newSize], inside);
  }

  lemma ZeroedView(s: Store, t: Store, bpc: nat, obj: nat, lo: int, hi: int, o: nat, k: nat)
    requires ChunksZeroed([], s, t, bpc, obj, lo, hi)
    ensures View([], t, o, k, bpc) == if o == obj && lo <= k <= hi then Nothing(bpc) else View([], s, o, k, bpc)
  {
    hide View;
  }

  lemma KeptView(t: Store, u: Store, bpc: nat, obj: nat, chunk: nat, n: nat, o: nat, k: nat)
    requires n <= bpc && LastKept([], t, u, bpc, obj, chunk, n)
    ensures if n > 0 && o == obj && k == chunk then View([], u, o, k, bpc).nBytes == n && ZeroPast(View([], u, o, k, bpc), bpc)
            else View([], u, o, k, bpc) == View([], t, o, k, bpc)
  {
    hide View;
  }

  /** One chunk of a file that is cut. */
  lemma {:induction false} CutCount(v: Chunk, w: Chunk, x: Chunk, k: nat, newSize: nat, size: nat, bpc: nat, inside: bool)
    requires bpc > 0 && newSize <= size && ZeroPast(v, bpc) && (inside ==> Inside(v, k, size, bpc))
    requires w == if Quot(newSize + bpc - 1, bpc) + 1 <= k <= LastDel(size, bpc) then Nothing(bpc) else v
    requires if Rem(newSize, bpc) > 0 && k == Quot(newSize, bpc) + 1 then x.nBytes == Rem(newSize, bpc) && ZeroPast(x, bpc) else x == w
    ensures ZeroPast(x, bpc) && (inside ==> Inside(x, k, newSize, bpc))
  {
    hide Quot; hide Rem; hide LastDel;
    WhereCut(0, newSize, size, bpc);
    QuotRem(newSize, bpc);
    if inside && !(Rem(newSize, bpc) > 0 && k == Quot(newSize, bpc) + 1) && x.nBytes > 0 {
      ChunkPlace(k, v.nBytes, newSize, size, bpc);
    }
  }

  lemma QuotRem(a: nat, n: nat)
    requires n > 0
    ensures a == Quot(a, n) * n + Rem(a, n) && Rem(a, n) < n
  {
    Remainder(a, n);
  }

  /** A chunk with bytes of the file that is neither pruned nor written again lies below the cut. */
  lemma {:induction false} ChunkPlace(k: nat, n: nat, newSize: nat, size: nat, bpc: nat)
    requires bpc > 0 && 0 < n <= bpc && k > 0 && (k - 1) * bpc + n <= size && newSize <= size
    requires !(Quot(newSize + bpc - 1, bpc) + 1 <= k <= LastDel(size, bpc)) && !(Rem(newSize, bpc) > 0 && k == Quot(newSize, bpc) + 1)
    ensures (k - 1) * bpc + n <= newSize
  {
    hide Rem;
    var pos := (k - 1) * bpc;
    Bits.DivModUnique(pos, k - 1, 0, bpc);
    WhereCut(pos, newSize, size, bpc);
    QuotRem(newSize, bpc);
    if k - 1 < Quot(newSize, bpc) {
      Bits.MulMonotone(k, Quot(newSize, bpc), bpc);
      assert k * bpc == (k - 1) * bpc + bpc;
    }
  }

  class FileCache {
    const bpc: nat
    const chunkShift: nat
    const chunkDiv: nat
    const bypassAligned: bool
    const inbandTags: bool
    const cache: array<Entry>
    var store: Store
    var fileSize: map<nat, nat>
    var lastUse: int
    /** Free space lasts: no allocation is refused. */
    const space: bool

    ghost predicate Valid()
      reads this, cache
    {
      bpc > 0 && Geometry() && Coherent(cache[..], store, bpc)
    }

    function Size(obj: nat): nat
      reads this
    {
      SizeIn(fileSize, obj)
    }

    /** Every file is zero past its size, as it is seen and as it is stored. */
    ghost predicate Tails()
      reads this, cache
      requires bpc > 0
    {
      AllTails(cache[..], store, bpc, fileSize) && AllTails([], store, bpc, fileSize)
    }

    /** Every chunk counts its bytes, as it is seen and as it is stored: none but zeros follow, and none lie past the end of
        the file. When space runs out, zeros past the end may be counted: see TakeBack.
     */
    ghost predicate Counts()
      reads this, cache
    {
      AllCounts(cache[..], store, bpc, fileSize, space)
    }

    ghost predicate Geometry() {
      bpc > 0 && 0 < chunkDiv <= LIMIT_32 && bpc == chunkDiv * Bits.Pow2(chunkShift)
    }

    /** The bytes are those of an earlier state. */
    ghost predicate Unseen(c: seq<Entry>, s: Store)
      reads this, cache
    {
      SameView(c, s, cache[..], store, bpc)
    }

    constructor (shift: nat, div: nat, nCaches: nat, bypassAligned: bool, inbandTags: bool, space: bool)
      requires 0 < div <= LIMIT_32
      ensures Valid() && Tails() && Counts() && fresh(cache) && cache.Length == nCaches && fileSize == map[]
      ensures chunkShift == shift && chunkDiv == div && bpc == div * Bits.Pow2(shift) && this.space == space
      ensures forall obj: nat, pos: nat :: ByteOf(cache[..], store, bpc, obj, pos) == 0
    {
      chunkShift, chunkDiv := shift, div;
      var size: nat := div * Bits.Pow2(shift);
      bpc := size;
      this.bypassAligned, this.inbandTags, this.space := bypassAligned, inbandTags, space;
      var none := Entry(0, 0, 0, false, 0, []);
      cache := new Entry[nCaches](_ => none);
      store, fileSize, lastUse := map[], map[], 0;
      new;
      PositiveProduct(div, Bits.Pow2(shift));
      forall obj: nat, chunk: nat ensures Find(cache[..], obj, chunk) == -1 {
        FindNone(cache[..], obj, chunk);
      }
    }

    // ----- the cache

    /** yaffs_flush_single_cache; writing from the reserve succeeds. */
    method FlushSingle(i: nat, discard: bool)
      requires Valid() && i < cache.Length && cache[i].owner > 0
      modifies this`store, cache
      ensures Valid() && Unseen(old(cache[..]), old(store)) && FewerHeld(old(cache[..]), cache[..])
      ensures cache[..] == old(cache[..])[i := cache[i]] && !cache[i].dirty && (discard ==> cache[i].owner == 0)
      ensures !discard ==> cache[i].owner == old(cache[i]).owner && cache[i].chunkId == old(cache[i]).chunkId && cache[i].data == old(cache[i]).data
      ensures !discard ==> Stored(store, cache[i].owner, cache[i].chunkId, bpc).data == cache[i].data
      ensures var e := old(cache[i]); store == if e.dirty then old(store)[(e.owner, e.chunkId) := Chunk(e.data, e.nBytes)] else old(store)
      ensures StoreFrom(old(store), cache[..], store, bpc)
    {
      hide View; hide Find;
      ghost var c, s := cache[..], store;
      EntryAgrees(c, s, bpc, i);
      SameViewSelf(c, s, bpc);
      if cache[i].dirty {
        Flush(c, s, bpc, i);
        store := store[(cache[i].owner, cache[i].chunkId) := Chunk(cache[i].data, cache[i].nBytes)];
        cache[i] := cache[i].(dirty := false);
        assert cache[..] == c[i := c[i].(dirty := false)];
      }
      if discard {
        ghost var d := cache[..];
        Drop(d, store, bpc, i);
        SameViewTrans(c, s, d, store, d[i := d[i].(owner := 0)], store, bpc);
        cache[i] := cache[i].(owner := 0);
        assert cache[..] == d[i := d[i].(owner := 0)];
      }
      FlushStores(c, s, cache[..], store, bpc, i);
    }

    /** yaffs_grab_chunk_cache: a free entry, or the least recently used one flushed and freed. */
    method GrabChunkCache() returns (i: nat)
      requires Valid() && cache.Length > 0
      modifies this`store, cache
      ensures Valid() && i < cache.Length && cache[i].owner == 0
      ensures Unseen(old(cache[..]), old(store)) && FewerHeld(old(cache[..]), cache[..])
      ensures cache[..] == old(cache[..])[i := cache[i]]
      ensures old(cache[i]).owner == 0 || IsVictim(old(cache[..]), i)
      ensures forall o: nat, k: nat :: Stored(store, o, k, bpc) == Saved(old(cache[..]), old(store), bpc, o, k, true)
    {
      hide View; hide Find; hide Coherent;
      ghost var c, s := cache[..], store;
      SameViewSelf(c, s, bpc);
      i := 0;
      while i < cache.Length
        invariant i <= cache.Length
        invariant forall j | 0 <= j < i :: cache[j].owner != 0
      {
        if cache[i].owner == 0 {
          NothingEvicted(c, s, bpc, i);
          return;
        }
        i := i + 1;
      }
      var best, usage := -1, -1;
      var k := 0;
      while k < cache.Length
        invariant k <= cache.Length && -1 <= best < k && (k > 0 ==> best >= 0)
        invariant best >= 0 ==> usage == cache[best].lastUse
        invariant forall j | 0 <= j < k :: cache[best].lastUse <= cache[j].lastUse && (j < best ==> cache[best].lastUse < cache[j].lastUse)
      {
        if cache[k].lastUse < usage || best < 0 {
          usage := cache[k].lastUse;
          best := k;
        }
        k := k + 1;
      }
      i := best;
      FlushSingle(i, true);
      assert IsVictim(c, i);
      VictimStored(c, s, store, bpc, i);
    }

    /** yaffs_find_chunk_cache. */
    method FindChunkCache(obj: nat, chunk: nat) returns (i: int)
      requires obj > 0
      ensures i == Find(cache[..], obj, chunk)
    {
      var k := 0;
      assert cache[0..] == cache[..];
      while k < cache.Length
        invariant k <= cache.Length
        invariant Find(cache[..], obj, chunk) == var r := Find(cache[k..], obj, chunk); if r < 0 then -1 else r + k
      {
        assert cache[k..][1..] == cache[k + 1..];
        if cache[k].owner == obj && cache[k].chunkId == chunk {
          return k;
        }
        k := k + 1;
      }
      return -1;
    }

    /** yaffs_use_cache on a read; when the clock has run out entry 0 keeps its stamp. */
    method StampCache(i: nat)
      requires Valid() && i < cache.Length
      modifies this`lastUse, cache
      ensures cache[..] == Stamped(old(cache[..]), old(lastUse), i) && lastUse == Clock(old(lastUse))
      ensures Valid() && Touched(old(cache[..]), cache[..]) && Unseen(old(cache[..]), store)
    {
      hide View; hide Find;
      ghost var c := cache[..];
      if lastUse < 0 || lastUse > 100000000 {
        var k := 1;
        while k < cache.Length
          invariant 1 <= k && forall j | 0 <= j < |c| :: cache[j] == if 1 <= j < k then c[j].(lastUse := 0) else c[j]
        {
          cache[k] := cache[k].(lastUse := 0);
          k := k + 1;
        }
        lastUse := 0;
      }
      lastUse := lastUse + 1;
      cache[i] := cache[i].(lastUse := lastUse);
      TouchedSame(c, store, cache[..], bpc);
    }

    /** An entry for a chunk not in the cache, filled from the store. */
    method LoadChunk(obj: nat, chunk: nat) returns (i: nat)
      requires Valid() && cache.Length > 0 && obj > 0 && Find(cache[..], obj, chunk) < 0
      modifies this`store, cache
      ensures Valid() && i < cache.Length && Holds(cache[i], obj, chunk) && !cache[i].dirty
      ensures Unseen(old(cache[..]), old(store))
      ensures forall o: nat, k: nat :: Stored(store, o, k, bpc) == Saved(old(cache[..]), old(store), bpc, o, k, true)
      ensures StoreFrom(old(store), cache[..], store, bpc)
    {
      hide View; hide Find; hide Coherent; hide Evicts;
      ghost var c, s := cache[..], store;
      i := GrabChunkCache();
      ghost var d := cache[..];
      StillNone(c, d, obj, chunk);
      var e := Entry(obj, chunk, cache[i].lastUse, false, 0, Stored(store, obj, chunk, bpc).data);
      Load(d, store, bpc, i, e);
      SameViewTrans(c, s, d, store, d[i := e], store, bpc);
      cache[i] := e;
      assert cache[..] == d[i := e];
      StoreFromSaved(c, s, cache[..], store, bpc);
    }

    // ----- one chunk

    /** The part of yaffs_file_rd that reads from one chunk. */
    method RdChunk(obj: nat, chunk: nat, start: nat, nCopy: nat) returns (piece: Bytes)
      requires Valid() && obj > 0 && start + nCopy <= bpc
      modifies this`store, this`lastUse, cache
      ensures Valid() && Unseen(old(cache[..]), old(store))
      ensures StoreFrom(old(store), cache[..], store, bpc)
      ensures start + nCopy <= |View(old(cache[..]), old(store), obj, chunk, bpc).data|
      ensures piece == View(old(cache[..]), old(store), obj, chunk, bpc).data[start..start + nCopy]
    {
      hide Find; hide Coherent; hide StoreFrom; hide Stored;
      ghost var c, s := cache[..], store;
      ViewLength(c, s, obj, chunk, bpc);
      SameViewSelf(c, s, bpc);
      StoreFromSelf(s, c, bpc);
      var i := FindChunkCache(obj, chunk);
      if i >= 0 || nCopy != bpc || inbandTags {
        if cache.Length > 0 {
          if i < 0 {
            i := LoadChunk(obj, chunk);
          }
          CoherentUnique(cache[..], store, bpc);
          ViewOfEntry(cache[..], store, bpc, i);
          hide View;
          piece := cache[i].data[start..start + nCopy];
          ghost var d := cache[..];
          StampCache(i);
          SameViewTrans(c, s, d, store, cache[..], store, bpc);
          StoreFromSelf(store, cache[..], bpc);
          StoreFromTrans(s, d, store, cache[..], store, bpc);
        } else {
          piece := Stored(store, obj, chunk, bpc).data[start..start + nCopy];
        }
      } else {
        piece := Stored(store, obj, chunk, bpc).data[start..start + nCopy];
      }
    }

    /** The data of entry i is changed and the entry becomes dirty. */
    method CopyIn(i: nat, start: nat, piece: Bytes, nWriteback: nat)
      requires Valid() && i < cache.Length && cache[i].owner > 0 && start + |piece| <= |cache[i].data|
      modifies this`lastUse, cache
      ensures Valid() && cache[i].owner == old(cache[i]).owner && cache[i].chunkId == old(cache[i]).chunkId
      ensures ChangedView(old(cache[..]), store, cache[..], store, bpc, cache[i].owner, cache[i].chunkId,
                          Chunk(Patch(old(cache[i]).data, start, piece), nWriteback))
    {
      hide Find; hide Coherent; hide View;
      ghost var c := cache[..];
      StampCache(i);
      ghost var d := cache[..];
      EntryAgrees(d, store, bpc, i);
      var e := cache[i].(dirty := true, data := Patch(cache[i].data, start, piece), nBytes := nWriteback);
      Modify(d, store, bpc, i, e);
      SameThenChanged(c, store, d, store, d[i := e], store, bpc, e.owner, e.chunkId, Chunk(e.data, e.nBytes));
      cache[i] := e;
      assert cache[..] == d[i := e];
    }

    /** Writing through the cache: when no chunk could be allocated, only an entry that is dirty already is written. */
    method WrCached(obj: nat, chunk: nat, start: nat, piece: Bytes, nWriteback: nat, writeThrough: bool)
      returns (written: bool, ghost available: bool)
      requires Valid() && obj > 0 && start + |piece| <= bpc && cache.Length > 0
      modifies this`store, this`lastUse, cache
      ensures Valid() && (space ==> written && available)
      ensures written <==> available || var i := Find(old(cache[..]), obj, chunk); i >= 0 && old(cache[..])[i].dirty
      ensures !written ==> cache[..] == old(cache[..]) && store == old(store)
      ensures start + |piece| <= |View(old(cache[..]), old(store), obj, chunk, bpc).data|
      ensures written ==> ChangedView(old(cache[..]), old(store), cache[..], store, bpc, obj, chunk,
                                      Chunk(Patch(View(old(cache[..]), old(store), obj, chunk, bpc).data, start, piece), nWriteback))
      ensures written ==> StoreSettled(old(cache[..]), old(store), store, bpc, Find(old(cache[..]), obj, chunk) < 0, obj, chunk)
      ensures written ==> var data := Chunk(Patch(View(old(cache[..]), old(store), obj, chunk, bpc).data, start, piece), nWriteback);
        Stored(store, obj, chunk, bpc) in {Stored(old(store), obj, chunk, bpc), data}
    {
      hide Find; hide Coherent; hide Evicts;
      ghost var c, s := cache[..], store;
      ViewLength(c, s, obj, chunk, bpc);
      SameViewSelf(c, s, bpc);
      var i := FindChunkCache(obj, chunk);
      var refused: bool := *;
      var allocatable := space || !refused;
      available := allocatable;
      if i < 0 && allocatable {
        i := LoadChunk(obj, chunk);
      } else if i >= 0 && !cache[i].dirty && !allocatable {
        i := -1;
      }
      written := i >= 0;
      if written {
        ghost var c1, s1 := cache[..], store;
        CoherentUnique(c1, s1, bpc);
        ViewOfEntry(c1, s1, bpc, i);
        hide View;
        ghost var data := Chunk(Patch(cache[i].data, start, piece), nWriteback);
        CopyIn(i, start, piece, nWriteback);
        ghost var d := cache[..];
        SameThenChanged(c, s, c1, s1, d, store, bpc, obj, chunk, data);
        if writeThrough {
          FlushSingle(i, false);
          ChangedThenSame(c, s, d, s1, cache[..], store, bpc, obj, chunk, data);
        }
      }
    }

    /** Writing a whole chunk past the cache. The entry goes even when the write is refused, and the stored chunk is seen
        again: data is lost exactly when that differs from what was seen.
     */
    method WrPast(obj: nat, chunk: nat, piece: Bytes) returns (written: bool, ghost lost: bool)
      requires Valid() && obj > 0 && |piece| == bpc
      modifies this`store, cache
      ensures Valid() && (space ==> written)
      ensures lost <==> !written && Unstored(old(cache[..]), old(store), obj, chunk, bpc)
      ensures ChangedView(old(cache[..]), old(store), cache[..], store, bpc, obj, chunk,
                          if written then Chunk(piece, bpc) else Stored(old(store), obj, chunk, bpc))
      ensures store == if written then old(store)[(obj, chunk) := Chunk(piece, bpc)] else old(store)
    {
      hide Find; hide Coherent;
      ghost var c, s := cache[..], store;
      var refused: bool := *;
      written := space || !refused;
      lost := !written && Unstored(c, s, obj, chunk, bpc);
      Bypass(c, s, bpc, obj, chunk, Chunk(piece, bpc));
      if written {
        store := store[(obj, chunk) := Chunk(piece, bpc)];
      }
      var i := FindChunkCache(obj, chunk);
      if i >= 0 {
        Forget(c, s, bpc, i);
        cache[i] := cache[i].(owner := 0);
        assert cache[..] == c[i := c[i].(owner := 0)];
      } else {
        assert cache[..] == c;
      }
    }

    /** Writing without a cache. */
    method WrDirect(obj: nat, chunk: nat, start: nat, piece: Bytes, nWriteback: nat) returns (written: bool)
      requires Valid() && obj > 0 && start + |piece| <= bpc && cache.Length == 0
      modifies this`store
      ensures Valid() && (space ==> written)
      ensures !written ==> store == old(store)
      ensures start + |piece| <= |View(old(cache[..]), old(store), obj, chunk, bpc).data|
      ensures written ==> ChangedView(old(cache[..]), old(store), cache[..], store, bpc, obj, chunk,
                                      Chunk(Patch(View(old(cache[..]), old(store), obj, chunk, bpc).data, start, piece), nWriteback))
      ensures written ==> forall o: nat, k: nat | !(o == obj && k == chunk) :: Stored(store, o, k, bpc) == Stored(old(store), o, k, bpc)
      ensures written ==>
        Stored(store, obj, chunk, bpc) == Chunk(Patch(View(old(cache[..]), old(store), obj, chunk, bpc).data, start, piece), nWriteback)
    {
      hide Coherent;
      ViewLength(cache[..], store, obj, chunk, bpc);
      SameViewSelf(cache[..], store, bpc);
      var local := Chunk(Patch(Stored(store, obj, chunk, bpc).data, start, piece), nWriteback);
      WriteStore(cache[..], store, bpc, obj, chunk, local);
      var refused: bool := *;
      written := space || !refused;
      if written {
        store := store[(obj, chunk) := local];
      }
    }

    // ----- reading and writing files

    /** The address lies in a chunk whose number the tree takes, and is split rightly. */
    predicate Addressable(addr: nat)
      requires bpc > 0
    {
      addr / Bits.Pow2(chunkShift) < ShiftedLimit(chunkDiv) && addr / bpc < MAX_CHUNK_ID
    }

    /** yaffs_addr_to_chunk on such an address. */
    lemma Split(addr: nat)
      requires bpc > 0 && Geometry() && Addressable(addr)
      ensures chunkDiv > 0 && AddrToChunk(addr, chunkShift, chunkDiv, bpc) == (addr / bpc, addr % bpc)
    {
      hide AddrToChunk; hide Bits.Pow2;
      AddrIsDivMod(addr, chunkShift, chunkDiv, bpc);
    }

    lemma FullChunk(addr: nat)
      requires bpc > 0 && Geometry() && Addressable(addr)
      ensures chunkDiv > 0 && AddrToChunk(addr, chunkShift, chunkDiv, bpc).0 == Quot(addr, bpc)
    {
      hide AddrToChunk; hide Bits.Pow2;
      Split(addr);
    }

    lemma AddressBelow(a: nat, b: nat)
      requires bpc > 0 && a <= b && Addressable(b)
      ensures Addressable(a)
    {
      DivMonotone(a, b, Bits.Pow2(chunkShift));
      DivMonotone(a, b, bpc);
    }

    /** yaffs_file_rd: the bytes of the file, and no reader can tell that it was read. */
    method FileRd(obj: nat, offset: nat, nBytes: nat) returns (data: Bytes)
      requires Valid() && obj > 0 && Addressable(offset + nBytes)
      modifies this`store, this`lastUse, cache
      ensures Valid() && SameBytes(old(cache[..]), old(store), cache[..], store, bpc) && Unseen(old(cache[..]), old(store))
      ensures StoreFrom(old(store), cache[..], store, bpc)
      ensures |data| == nBytes && forall k | 0 <= k < nBytes :: data[k] == ByteOf(old(cache[..]), old(store), bpc, obj, offset + k)
    {
      hide Geometry; hide Addressable;
      hide Find; hide Coherent; hide View; hide Bits.Pow2; hide StoreFrom; hide ByteOf; hide SameView;
      ghost var c, s := cache[..], store;
      SameViewSelf(c, s, bpc);
      StoreFromSelf(s, c, bpc);
      data := [];
      while |data| < nBytes
        invariant Valid() && SameView(c, s, cache[..], store, bpc) && StoreFrom(s, cache[..], store, bpc) && |data| <= nBytes
        invariant forall k | 0 <= k < |data| :: data[k] == ByteOf(c, s, bpc, obj, offset + k)
        decreases nBytes - |data|
      {
        var at, n := offset + |data|, nBytes - |data|;
        AddressBelow(at, offset + nBytes);
        Split(at);
        InsideChunk(at, bpc);
        hide AddrToChunk;
        var (chunk, start) := AddrToChunk(at, chunkShift, chunkDiv, bpc);
        var nCopy := if start + n < bpc then n else bpc - start;
        ghost var c1, s1 := cache[..], store;
        var piece := RdChunk(obj, chunk + 1, start, nCopy);
        PieceBytes(c, s, c1, s1, bpc, obj, at, piece);
        SameViewTrans(c, s, c1, s1, cache[..], store, bpc);
        StoreFromTrans(s, c1, s1, cache[..], store, bpc);
        data := data + piece;
      }
      SameViewBytes(c, s, cache[..], store, bpc);
    }

    /** A write of n bytes at an address starts with a whole chunk that goes past the cache. */
    predicate Bypasses(at: nat, n: nat)
      requires bpc > 0
    {
      at % bpc == 0 && n >= bpc && bypassAligned && !inbandTags
    }

    lemma BypassesWhole(at: nat, n: nat)
      requires bpc > 0
      ensures Bypasses(at, n) ==> Whole(at, bpc)
    {
    }

    /** The number of the chunk an address is in. */
    function ChunkNo(at: nat): (k: nat)
      requires bpc > 0
      ensures k > 0
    {
      at / bpc + 1
    }

    /** One chunk's part of yaffs_do_file_wr. */
    method WrChunk(obj: nat, at: nat, piece: Bytes, nWriteback: nat, writeThrough: bool) returns (written: bool, ghost lost: bool)
      requires Valid() && obj > 0 && at % bpc + |piece| <= bpc && (|piece| == bpc ==> nWriteback == bpc)
      modifies this`store, this`lastUse, cache
      ensures Valid() && (space ==> written)
      ensures lost <==> !written && Bypasses(at, |piece|) && Unstored(old(cache[..]), old(store), obj, ChunkNo(at), bpc)
      ensures written ==> Wrote(old(cache[..]), old(store), cache[..], store, bpc, obj, at, piece)
      ensures written ==> StoreSettled(old(cache[..]), old(store), store, bpc,
                                       !Bypasses(at, |piece|) && Find(old(cache[..]), obj, ChunkNo(at)) < 0, obj, ChunkNo(at))
      ensures !written ==> store == old(store)
      ensures written ==> StoreFrom(old(store), cache[..], store, bpc)
      ensures !written && !lost ==> SameBytes(old(cache[..]), old(store), cache[..], store, bpc)
      ensures lost ==> Reverted(old(cache[..]), old(store), cache[..], store, bpc, obj, ChunkNo(at))
      ensures written ==> OneCounted(old(cache[..]), old(store), cache[..], store, bpc, obj, ChunkNo(at), nWriteback)
      ensures !written ==> Forgotten(old(cache[..]), old(store), cache[..], bpc, obj, ChunkNo(at), Bypasses(at, |piece|))
    {
      hide Geometry; hide Find; hide Coherent; hide View; hide Wrote; hide Unstored; hide ByteOf; hide StoreSettled; hide StoreFrom; hide Patch;
      hide OneCounted; hide Forgotten; hide ChangedView;
      ghost var c, s := cache[..], store;
      var chunk, start := ChunkNo(at), at % bpc;
      InsideChunk(at, bpc);
      ViewLength(c, s, obj, chunk, bpc);
      written, lost := WrPiece(obj, chunk, start, piece, nWriteback, writeThrough);
      if written {
        PatchWrote(c, s, cache[..], store, bpc, obj, at, piece, nWriteback);
        ChangedCount(c, s, cache[..], store, bpc, obj, chunk, Chunk(Patch(View(c, s, obj, chunk, bpc).data, start, piece), nWriteback));
      } else if PastCache(|piece|) {
        RevertedBytes(c, s, cache[..], store, bpc, obj, chunk);
        ForgottenNot(c, s, cache[..], bpc, obj, chunk, true);
      } else {
        ForgottenNot(c, s, cache[..], bpc, obj, chunk, Bypasses(at, |piece|));
        SameViewBytes(c, s, cache[..], store, bpc);
      }
    }

    /** A piece of this length goes past the cache. */
    predicate PastCache(n: nat) {
      n == bpc && bypassAligned && !inbandTags
    }

    /** The three ways to write a piece of one chunk. */
    method WrPiece(obj: nat, chunk: nat, start: nat, piece: Bytes, nWriteback: nat, writeThrough: bool) returns (written: bool, ghost lost: bool)
      requires Valid() && obj > 0 && start + |piece| <= bpc && (|piece| == bpc ==> nWriteback == bpc)
      modifies this`store, this`lastUse, cache
      ensures Valid() && (space ==> written)
      ensures lost <==> !written && PastCache(|piece|) && Unstored(old(cache[..]), old(store), obj, chunk, bpc)
      ensures start + |piece| <= |View(old(cache[..]), old(store), obj, chunk, bpc).data|
      ensures written ==> ChangedView(old(cache[..]), old(store), cache[..], store, bpc, obj, chunk,
                                      Chunk(Patch(View(old(cache[..]), old(store), obj, chunk, bpc).data, start, piece), nWriteback))
      ensures written ==> StoreSettled(old(cache[..]), old(store), store, bpc, !PastCache(|piece|) && Find(old(cache[..]), obj, chunk) < 0, obj, chunk)
      ensures written ==> StoreFrom(old(store), cache[..], store, bpc)
      ensures !written ==> store == old(store)
      ensures !written && !PastCache(|piece|) ==> SameView(old(cache[..]), old(store), cache[..], store, bpc)
      ensures !written && PastCache(|piece|) ==>
        ChangedView(old(cache[..]), old(store), cache[..], store, bpc, obj, chunk, Stored(old(store), obj, chunk, bpc))
    {
      hide Geometry; hide Find; hide Coherent; hide View; hide Evicts; hide Unstored;
      ghost var c, s := cache[..], store;
      lost := false;
      ViewLength(c, s, obj, chunk, bpc);
      if |piece| != bpc || !bypassAligned || inbandTags {
        if cache.Length > 0 {
          ghost var available;
          written, available := WrCached(obj, chunk, start, piece, nWriteback, writeThrough);
        } else {
          written := WrDirect(obj, chunk, start, piece, nWriteback);
          NoVictim(c);
        }
        SameViewSelf(c, s, bpc);
      } else {
        written, lost := WrPast(obj, chunk, piece);
        WholePatch(View(c, s, obj, chunk, bpc).data, start, piece);
      }
      if written {
        StoreFromSettled(c, s, cache[..], store, bpc, !PastCache(|piece|) && Find(c, obj, chunk) < 0, obj, chunk,
                         Chunk(Patch(View(c, s, obj, chunk, bpc).data, start, piece), nWriteback));
      }
    }

    /** n_writeback: how much of the chunk counts as data after the write. */
    function Writeback(obj: nat, chunkStart: nat, start: nat, n: nat): nat
      reads this
      requires bpc > 0
    {
      if start + n < bpc then
        var size := Size(obj);
        var read := if chunkStart > size then 0 else if size - chunkStart > bpc then bpc else size - chunkStart;
        if read > start + n then read else start + n
      else bpc
    }

    /** It is how much of the file lies in the chunk. */
    lemma WritebackFills(obj: nat, at: nat, n: nat)
      requires bpc > 0 && n > 0
      ensures var start := at % bpc; var nCopy := if start + n < bpc then n else bpc - start;
        && 0 <= start <= at && 0 < nCopy <= n && (nCopy == bpc ==> Writeback(obj, at - start, start, n) == bpc)
        && Writeback(obj, at - start, start, n) == Filled(SizeIn(Larger(fileSize, obj, at + nCopy), obj), ChunkNo(at), bpc)
    {
      Remainder(at, bpc);
      assert at - at % bpc == (ChunkNo(at) - 1) * bpc;
    }

    /** The next piece of a write, up to the end of its chunk. */
    method WrNext(obj: nat, at: nat, rest: Bytes, writeThrough: bool) returns (nCopy: nat, written: bool, ghost lost: bool)
      requires Valid() && obj > 0 && |rest| > 0 && Addressable(at + |rest|)
      modifies this`store, this`lastUse, cache
      ensures Valid() && 0 < nCopy <= |rest| && (space ==> written)
      ensures nCopy == if at % bpc + |rest| < bpc then |rest| else bpc - at % bpc
      ensures lost <==> !written && Bypasses(at, |rest|) && Unstored(old(cache[..]), old(store), obj, ChunkNo(at), bpc)
      ensures written ==> Wrote(old(cache[..]), old(store), cache[..], store, bpc, obj, at, rest[..nCopy])
      ensures written ==> StoreSettled(old(cache[..]), old(store), store, bpc,
                                       !Bypasses(at, |rest|) && Find(old(cache[..]), obj, ChunkNo(at)) < 0, obj, ChunkNo(at))
      ensures !written ==> store == old(store)
      ensures written ==> StoreFrom(old(store), cache[..], store, bpc)
      ensures !written && !lost ==> SameBytes(old(cache[..]), old(store), cache[..], store, bpc)
      ensures lost ==> Reverted(old(cache[..]), old(store), cache[..], store, bpc, obj, ChunkNo(at))
      ensures written ==> OneCounted(old(cache[..]), old(store), cache[..], store, bpc, obj, ChunkNo(at),
                                     Filled(SizeIn(Larger(fileSize, obj, at + nCopy), obj), ChunkNo(at), bpc))
      ensures !written ==> Forgotten(old(cache[..]), old(store), cache[..], bpc, obj, ChunkNo(at), Bypasses(at, |rest|))
    {
      hide Geometry; hide Addressable; hide ChunkNo; hide OneCounted; hide Forgotten; hide Filled; hide Larger;
      hide Find; hide Coherent; hide View; hide Bits.Pow2; hide Wrote; hide ByteOf; hide Writeback; hide Unstored; hide StoreSettled; hide Reverted;
      AddressBelow(at, at + |rest|);
      Split(at);
      InsideChunk(at, bpc);
      hide AddrToChunk;
      var (chunk, start) := AddrToChunk(at, chunkShift, chunkDiv, bpc);
      nCopy := if start + |rest| < bpc then |rest| else bpc - start;
      WritebackFills(obj, at, |rest|);
      written, lost := WrChunk(obj, at, rest[..nCopy], Writeback(obj, at - start, start, |rest|), writeThrough);
    }

    /** How a write stands that has come to its n-th byte. */
    ghost predicate Writing(c: seq<Entry>, s: Store, obj: nat, buf: Bytes, offset: nat, n: nat, written: bool, lost: bool)
      reads this, cache
      requires bpc > 0
    {
      && n <= |buf| && (space ==> written) && (!written ==> n < |buf|)
      && (written ==> n == |buf| || n == 0 || (offset + n) % bpc == 0)
      && (n == 0 && written ==> cache[..] == c && store == s)
      && (written && bypassAligned && !inbandTags && n < |buf| ==> Ahead(c, s, store, bpc, obj, offset, n))
      && (lost <==> !written && Bypasses(offset + n, |buf| - n) && Loses(c, s, bpc, obj, offset, n))
      && (!lost ==> Wrote(c, s, cache[..], store, bpc, obj, offset, buf[..n]))
      && (lost ==> WroteReverted(c, s, cache[..], store, bpc, obj, offset, buf[..n]))
      && StoredWrote(c, s, store, bpc, obj, offset, buf[..n])
      && Counting(c, s, cache[..], store, bpc, obj, offset, n, fileSize, space, !written)
    }

    /** One turn of the loop in yaffs_do_file_wr. */
    method WrTurn(ghost c: seq<Entry>, ghost s: Store, obj: nat, buf: Bytes, offset: nat, n: nat, writeThrough: bool)
      returns (nDone: nat, written: bool, ghost lost: bool)
      requires Valid() && obj > 0 && Addressable(offset + |buf|) && n < |buf| && Coherent(c, s, bpc)
      requires Writing(c, s, obj, buf, offset, n, true, false) && AllTails(c, s, bpc, fileSize)
      modifies this`store, this`lastUse, cache
      ensures Valid() && n <= nDone && (written ==> n < nDone) && Writing(c, s, obj, buf, offset, nDone, written, lost)
    {
      hide Find; hide Coherent; hide View; hide Bits.Pow2; hide Wrote; hide ByteOf; hide Unstored; hide Addressable;
      hide StoreSettled; hide Reverted; hide WroteReverted; hide Loses; hide Ahead; hide StoreFrom; hide StoredWrote;
      hide Counting; hide OneCounted; hide Forgotten; hide AllTails; hide Filled; hide Larger;
      ghost var c1, s1 := cache[..], store;
      var at, nCopy := offset + n, 0;
      nCopy, written, lost := WrNext(obj, at, buf[n..], writeThrough);
      if written {
        WroteTrans(c, s, c1, s1, cache[..], store, bpc, obj, offset, buf[..n], buf[n..][..nCopy]);
        assert buf[..n] + buf[n..][..nCopy] == buf[..n + nCopy];
        WroteStored(c, s, s1, cache[..], store, bpc, obj, offset, buf[..n], buf[..n + nCopy]);
        PieceCounted(c, s, c1, s1, obj, offset, n, nCopy, buf[..n + nCopy]);
        if n + nCopy < |buf| {
          NextChunk(at, bpc);
          if bypassAligned && !inbandTags { AheadMore(c, s, c1, s1, store, bpc, obj, offset, n, nCopy); }
        }
        nDone := n + nCopy;
      } else {
        nDone := n;
        if Bypasses(at, |buf| - n) {
          LosesThere(c, s, c1, s1, bpc, obj, offset, buf[..n]);
          if lost { RevertedAfter(c, s, c1, s1, cache[..], store, bpc, obj, offset, buf[..n]); }
        }
        if !lost { WroteThenSame(c, s, c1, s1, cache[..], store, bpc, obj, offset, buf[..n]); }
        RefusedCounted(c, s, c1, s1, obj, offset, n, |buf|);
      }
    }

    /** The counts after one more piece. */
    lemma {:induction false} PieceCounted(c: seq<Entry>, s: Store, c1: seq<Entry>, s1: Store, obj: nat, offset: nat, n: nat, nCopy: nat, x: Bytes)
      requires Valid() && Counting(c, s, c1, s1, bpc, obj, offset, n, fileSize, space, false) && AllTails(c, s, bpc, fileSize)
      requires 0 < nCopy <= bpc - (offset + n) % bpc && (n > 0 ==> (offset + n) % bpc == 0) && |x| == n + nCopy
      requires Wrote(c, s, cache[..], store, bpc, obj, offset, x) && StoreFrom(s1, cache[..], store, bpc)
      requires OneCounted(c1, s1, cache[..], store, bpc, obj, ChunkNo(offset + n),
                          Filled(SizeIn(Larger(fileSize, obj, offset + n + nCopy), obj), ChunkNo(offset + n), bpc))
      ensures Counting(c, s, cache[..], store, bpc, obj, offset, n + nCopy, fileSize, space, false)
    {
      hide Find; hide Coherent; hide View; hide Wrote; hide Counting; hide OneCounted; hide AllTails; hide Filled; hide StoreFrom; hide Geometry;
      hide Larger;
      LargerSize(fileSize, obj, offset + n + nCopy, offset + n + nCopy);
      WroteTails(c, s, cache[..], store, bpc, obj, offset, x, fileSize, Larger(fileSize, obj, offset + n + nCopy));
      ViewLength(cache[..], store, obj, ChunkNo(offset + n), bpc);
      CountingMore(c, s, c1, s1, cache[..], store, bpc, obj, offset, n, nCopy, fileSize, space);
    }

    /** The counts after a refused piece. */
    lemma {:induction false} RefusedCounted(c: seq<Entry>, s: Store, c1: seq<Entry>, s1: Store, obj: nat, offset: nat, n: nat, len: nat)
      requires bpc > 0 && n < len && store == s1 && Counting(c, s, c1, s1, bpc, obj, offset, n, fileSize, space, false)
      requires Forgotten(c1, s1, cache[..], bpc, obj, ChunkNo(offset + n), Bypasses(offset + n, len - n)) && (n > 0 ==> (offset + n) % bpc == 0)
      requires bypassAligned && !inbandTags ==> Ahead(c, s, s1, bpc, obj, offset, n)
      ensures Counting(c, s, cache[..], store, bpc, obj, offset, n, fileSize, space, true)
    {
      hide Find; hide View; hide Counting; hide Forgotten; hide Stored; hide Evicts; hide Grabbed;
      CountingRefused(c, s, c1, s1, cache[..], bpc, obj, offset, n, fileSize, space, Bypasses(offset + n, len - n));
    }

    /** yaffs_do_file_wr: the file holds the bytes written so far, and every other byte is as it was, unless a refused
        write past the cache threw cached data away. It does so exactly when the chunk was seen with data that is not in
        the store, and did not get there when the first piece of the write made room for itself.
     */
    method DoFileWr(obj: nat, buf: Bytes, offset: nat, writeThrough: bool) returns (nDone: nat, ghost lost: bool)
      requires Valid() && Tails() && Counts() && obj > 0 && Addressable(offset + |buf|)
      modifies this`store, this`lastUse, this`fileSize, cache
      ensures Valid() && Tails() && Counts() && nDone <= |buf| && (space ==> nDone == |buf|)
      ensures CountsFilled(cache[..], store, bpc, obj, offset, nDone, Size(obj))
      ensures lost <==> nDone < |buf| && Bypasses(offset + nDone, |buf| - nDone)
                        && Loses(old(cache[..]), old(store), bpc, obj, offset, nDone)
      ensures fileSize == Larger(old(fileSize), obj, offset + nDone)
      ensures !lost ==> Wrote(old(cache[..]), old(store), cache[..], store, bpc, obj, offset, buf[..nDone])
      ensures lost ==> WroteReverted(old(cache[..]), old(store), cache[..], store, bpc, obj, offset, buf[..nDone])
      ensures StoredWrote(old(cache[..]), old(store), store, bpc, obj, offset, buf[..nDone])
    {
      hide Find; hide Coherent; hide View; hide Bits.Pow2; hide Wrote; hide ByteOf; hide Addressable; hide Bypasses;
      hide WroteReverted; hide Loses; hide Ahead; hide AllTails; hide StoredWrote; hide Counting; hide AllCounts; hide CountsFilled;
      ghost var c, s := cache[..], store;
      nDone, lost := 0, false;
      CountingBegins(c, s, bpc, obj, offset, fileSize, space);
      StoredNothing(c, s, bpc, obj, offset);
      WroteNothing(c, s, bpc, obj, offset);
      AheadNothing(c, s, bpc, obj, offset);
      assert buf[..0] == [];
      var written := true;
      while nDone < |buf| && written
        invariant Valid() && Writing(c, s, obj, buf, offset, nDone, written, lost) && fileSize == old(fileSize)
        decreases |buf| - nDone, written
      {
        nDone, written, lost := WrTurn(c, s, obj, buf, offset, nDone, writeThrough);
      }
      CountingMeans(c, s, cache[..], store, bpc, obj, offset, nDone, fileSize, space, !written);
      if offset + nDone > Size(obj) {
        fileSize := fileSize[obj := offset + nDone];
      }
      StoredTailsKept(c, s, store, bpc, obj, offset, buf[..nDone], old(fileSize), fileSize);
      if lost {
        RevertedTails(c, s, cache[..], store, bpc, obj, offset, buf[..nDone], old(fileSize));
      } else {
        WroteTails(c, s, cache[..], store, bpc, obj, offset, buf[..nDone], old(fileSize), fileSize);
      }
    }

    // ----- holes

    /** yaffs2_handle_hole: a small hole is written out as zeros, which no reader notices, nor that they are taken back when
        space runs out.
     */
    method HandleHole(obj: nat, newSize: nat)
      requires Valid() && Tails() && Counts() && obj > 0 && Addressable(newSize) && (space || Addressable(newSize + bpc))
      modifies this`store, this`lastUse, this`fileSize, cache
      ensures Valid() && Tails() && Counts() && SameBytes(old(cache[..]), old(store), cache[..], store, bpc)
      ensures OthersKeepSize(obj, old(fileSize)) && Size(obj) in {old(Size(obj)), newSize} && Size(obj) >= old(Size(obj))
      ensures newSize <= old(Size(obj)) || newSize - old(Size(obj)) >= 4 * bpc ==>
        cache[..] == old(cache[..]) && store == old(store) && fileSize == old(fileSize)
    {
      hide Find; hide Coherent; hide View; hide Bits.Pow2; hide ByteOf; hide AllTails; hide Addressable; hide SameBytes; hide AllCounts;
      ghost var c, s := cache[..], store;
      SameBytesSelf(c, s, bpc);
      var oldSize := Size(obj);
      if newSize <= oldSize {
        return;
      }
      var smallHole: bool := *;
      if smallHole && newSize - oldSize < 4 * bpc {
        var ok := WriteZeros(obj, newSize);
        if !ok {
          TakeBack(c, s, obj, oldSize, old(fileSize), newSize);
        }
      }
    }

    /** The zeros of a small hole, up to the first refused write. */
    method WriteZeros(obj: nat, newSize: nat) returns (ok: bool)
      requires Valid() && Tails() && Counts() && obj > 0 && Addressable(newSize) && newSize >= Size(obj)
      modifies this`store, this`lastUse, this`fileSize, cache
      ensures Valid() && Tails() && Counts() && SameBytes(old(cache[..]), old(store), cache[..], store, bpc)
      ensures AllTails([], store, bpc, old(fileSize)) && (space ==> ok)
      ensures OthersKeepSize(obj, old(fileSize)) && old(Size(obj)) <= Size(obj) <= newSize && (ok ==> Size(obj) == newSize)
    {
      hide Find; hide Coherent; hide View; hide Bits.Pow2; hide Wrote; hide ByteOf; hide AllTails; hide StoredWrote; hide WroteReverted;
      hide Loses; hide SameBytes; hide Addressable; hide AllCounts;
      ghost var c, s, before := cache[..], store, fileSize;
      SameBytesSelf(c, s, bpc);
      ok := true;
      var pos := Size(obj);
      while pos < newSize && ok
        invariant pos <= Size(obj) <= newSize && (ok ==> Size(obj) == pos) && (space ==> ok) && OthersKeepSize(obj, before)
        invariant SizeIn(before, obj) <= pos
        invariant Valid() && Tails() && Counts() && SameBytes(c, s, cache[..], store, bpc) && AllTails([], store, bpc, before)
        decreases newSize - pos, ok
      {
        var thisWrite := if newSize - pos > bpc then bpc else newSize - pos;
        var written := WriteZero(c, s, before, obj, pos, thisWrite, newSize);
        if written == thisWrite {
          pos := pos + thisWrite;
        } else {
          ok := false;
        }
      }
    }

    /** One write of zeros at the end of a file; it loses nothing, since the store has zeros there already. */
    method WriteZero(ghost c: seq<Entry>, ghost s: Store, ghost before: map<nat, nat>, obj: nat, pos: nat, n: nat, ghost limit: nat)
      returns (written: nat)
      requires Valid() && Tails() && Counts() && obj > 0 && pos + n <= limit && Addressable(limit) && Size(obj) == pos >= SizeIn(before, obj)
      requires SameBytes(c, s, cache[..], store, bpc) && AllTails(c, s, bpc, before) && AllTails([], store, bpc, before)
      requires OthersKeepSize(obj, before)
      modifies this`store, this`lastUse, this`fileSize, cache
      ensures Valid() && Tails() && Counts() && written <= n && (space ==> written == n)
      ensures SameBytes(c, s, cache[..], store, bpc) && AllTails([], store, bpc, before)
      ensures OthersKeepSize(obj, before) && Size(obj) == pos + written
    {
      hide Geometry;
      hide Find; hide Coherent; hide View; hide Bits.Pow2; hide Wrote; hide ByteOf; hide AllTails; hide StoredWrote; hide WroteReverted;
      hide Loses; hide SameBytes; hide AllCounts; hide CountsFilled;
      ghost var c1, s1 := cache[..], store;
      AddressBelow(pos + n, limit);
      TailOf(c1, s1, bpc, fileSize, obj);
      TailOf([], s1, bpc, fileSize, obj);
      SameTails(c, s, c1, s1, bpc, before);
      ghost var lost;
      written, lost := DoFileWr(obj, Zeros(n), pos, false);
      if Bypasses(pos + written, n - written) { NoLossPastEnd(c1, s1, bpc, obj, pos, written); }
      ZerosUnseen(c, s, c1, s1, cache[..], store, bpc, obj, pos, Zeros(n)[..written]);
      StoredTailsKept(c1, s1, store, bpc, obj, pos, Zeros(n)[..written], before, before);
    }

    /** The end of yaffs2_handle_hole when space ran out: the file is cut back in the store, where it is zero anyway. Zeros in
        the cache stay there, and stay counted.
     */
    method TakeBack(ghost c: seq<Entry>, ghost s: Store, obj: nat, oldSize: nat, ghost before: map<nat, nat>, ghost limit: nat)
      requires Valid() && Tails() && Counts() && !space && obj > 0 && SizeIn(before, obj) == oldSize <= Size(obj) <= limit && Addressable(limit + bpc)
      requires SameBytes(c, s, cache[..], store, bpc) && AllTails(c, s, bpc, before) && AllTails([], store, bpc, before)
      requires OthersKeepSize(obj, before)
      modifies this`store, this`fileSize
      ensures Valid() && Tails() && Counts() && SameBytes(c, s, cache[..], store, bpc) && OthersKeepSize(obj, before) && Size(obj) == oldSize
    {
      hide Geometry;
      hide Find; hide Coherent; hide View; hide Bits.Pow2; hide ByteOf; hide AllTails; hide SameBytes; hide Cut; hide CountsOf;
      ghost var s1 := store;
      AddressBelow(Size(obj) + bpc, limit + bpc);
      StoreCoherent(cache[..], store, bpc);
      TailOf([], s1, bpc, before, obj);
      ResizeFileDown(obj, oldSize);
      CutZeros(cache[..], s1, store, bpc, obj, oldSize);
      SameBytesTrans(c, s, cache[..], s1, cache[..], store, bpc);
      SameTails(c, s, cache[..], store, bpc, before);
      SameSizes(cache[..], store, bpc, before, fileSize);
      CountsCut(cache[..], s1, store, bpc, obj, oldSize, old(fileSize), false);
    }

    ghost predicate OthersKeepSize(obj: nat, before: map<nat, nat>)
      reads this
    {
      forall o: nat | o != obj :: SizeIn(fileSize, o) == SizeIn(before, o)
    }

    /** yaffs_wr_file: what yaffs_do_file_wr does, as if the file had been zero up to the offset. A write past the end of
        the file loses nothing.
     */
    method WrFile(obj: nat, buf: Bytes, offset: nat, writeThrough: bool) returns (nDone: nat, ghost lost: bool)
      requires Valid() && Tails() && Counts() && obj > 0 && Addressable(offset + |buf|) && (space || Addressable(offset + |buf| + bpc))
      modifies this`store, this`lastUse, this`fileSize, cache
      ensures CountsFilled(cache[..], store, bpc, obj, offset, nDone, Size(obj))
      ensures Valid() && Tails() && Counts() && nDone <= |buf| && (space ==> nDone == |buf|)
      ensures lost <==> nDone < |buf| && Bypasses(offset + nDone, |buf| - nDone)
                        && Loses(old(cache[..]), old(store), bpc, obj, offset, nDone)
      ensures lost ==> offset < old(Size(obj))
                       && WroteReverted(old(cache[..]), old(store), cache[..], store, bpc, obj, offset, buf[..nDone])
      ensures !lost ==> Wrote(old(cache[..]), old(store), cache[..], store, bpc, obj, offset, buf[..nDone])
      ensures OthersKeepSize(obj, old(fileSize)) && Size(obj) == if offset + nDone > old(Size(obj)) then offset + nDone else old(Size(obj))
    {
      hide Geometry;
      hide Find; hide Coherent; hide View; hide Bits.Pow2; hide Wrote; hide ByteOf; hide AllTails; hide StoredWrote; hide WroteReverted;
      hide Loses; hide SameBytes; hide Bypasses; hide AllCounts; hide CountsFilled;
      ghost var c, s := cache[..], store;
      AddressBelow(offset, offset + |buf|);
      if !space { AddressBelow(offset + bpc, offset + |buf| + bpc); }
      HandleHole(obj, offset);
      ghost var c1, s1, sizes := cache[..], store, fileSize;
      nDone, lost := DoFileWr(obj, buf, offset, writeThrough);
      if offset >= old(Size(obj)) && Whole(offset + nDone, bpc) {
        TailFrom(c, s, bpc, old(fileSize), obj, offset); TailFrom([], s, bpc, old(fileSize), obj, offset);
        NoLossPastEnd(c, s, bpc, obj, offset, nDone);
        TailFrom(c1, s1, bpc, sizes, obj, offset); TailFrom([], s1, bpc, sizes, obj, offset);
        NoLossPastEnd(c1, s1, bpc, obj, offset, nDone);
      }
      BypassesWhole(offset + nDone, |buf| - nDone);
      if !lost { SameThenWrote(c, s, c1, s1, cache[..], store, bpc, obj, offset, buf[..nDone]); }
    }

    // ----- flushing

    /** yaffs_flush_file_cache with discard, after which the file is not in the cache. */
    method FlushFileCache(obj: nat)
      requires Valid() && obj > 0
      modifies this`store, cache
      ensures Valid() && Unseen(old(cache[..]), old(store))
      ensures StoreFrom(old(store), cache[..], store, bpc)
      ensures forall j | 0 <= j < cache.Length :: cache[j].owner != obj
    {
      hide Find; hide Coherent; hide View; hide StoreFrom;
      ghost var c, s := cache[..], store;
      SameViewSelf(c, s, bpc);
      StoreFromSelf(s, c, bpc);
      var i := 0;
      while i < cache.Length
        invariant i <= cache.Length && Valid() && SameView(c, s, cache[..], store, bpc) && StoreFrom(s, cache[..], store, bpc)
        invariant forall j | 0 <= j < i :: cache[j].owner != obj
      {
        if cache[i].owner == obj {
          ghost var d, t := cache[..], store;
          FlushSingle(i, true);
          SameViewTrans(c, s, d, t, cache[..], store, bpc);
          StoreFromTrans(s, d, t, cache[..], store, bpc);
          assert forall j | 0 <= j < i :: cache[j] == d[j];
        }
        i := i + 1;
      }
    }

    // ----- resizing

    /** yaffs_prune_chunks: the stored chunks past the new size go. */
    method PruneChunks(obj: nat, newSize: nat)
      requires bpc > 0 && Geometry() && Coherent([], store, bpc) && obj > 0 && newSize <= Size(obj) && Addressable(Size(obj) + bpc)
      modifies this`store
      ensures Coherent([], store, bpc)
      ensures ChunksZeroed([], old(store), store, bpc, obj, Quot(newSize + bpc - 1, bpc) + 1, LastDel(Size(obj), bpc))
    {
      hide Geometry; hide Addressable; hide AddrToChunk; hide Quot;
      hide Find; hide Coherent; hide View; hide Bits.Pow2; hide ChunksZeroed;
      var size: nat := Size(obj);
      var lastDel := 0;
      if size > 0 {
        AddressBelow(size - 1, size + bpc);
        FullChunk(size - 1);
        lastDel := AddrToChunk(size - 1, chunkShift, chunkDiv, bpc).0;
      }
      AddressBelow(newSize + bpc - 1, size + bpc);
      FullChunk(newSize + bpc - 1);
      var startDel := AddrToChunk(newSize + bpc - 1, chunkShift, chunkDiv, bpc).0 + 1;
      DeleteChunks(obj, startDel, lastDel + 1);
    }

    method DeleteChunks(obj: nat, startDel: nat, lastDel: nat)
      requires Coherent([], store, bpc) && obj > 0 && startDel > 0
      modifies this`store
      ensures Coherent([], store, bpc) && ChunksZeroed([], old(store), store, bpc, obj, startDel, lastDel)
    {
      hide Find; hide Coherent; hide View; hide ChunksZeroed;
      NothingZeroed([], store, bpc, obj, lastDel + 1, lastDel);
      var i := lastDel;
      while i >= startDel
        invariant startDel - 1 <= i || i == lastDel
        invariant Coherent([], store, bpc) && i <= lastDel && ChunksZeroed([], old(store), store, bpc, obj, i + 1, lastDel)
        decreases i
      {
        NotHeld([], obj, i);
        DeleteStore([], store, bpc, obj, i);
        ZeroOneMore([], old(store), store, store - {(obj, i)}, bpc, obj, i, lastDel);
        store := store - {(obj, i)};
        i := i - 1;
      }
      LessZeroed([], old(store), store, bpc, obj, i + 1, startDel, lastDel);
    }

    /** yaffs_resize_file_down: everything stored of the file from the new size on is zero. */
    method ResizeFileDown(obj: nat, newSize: nat)
      requires bpc > 0 && Geometry() && Coherent([], store, bpc) && AllTails([], store, bpc, fileSize) && CountsOf([], store, bpc, fileSize, space)
      requires obj > 0 && newSize <= Size(obj) && Addressable(Size(obj) + bpc)
      modifies this`store, this`fileSize
      ensures Coherent([], store, bpc) && AllTails([], store, bpc, fileSize) && fileSize == old(fileSize)[obj := newSize]
      ensures Cut([], old(store), [], store, bpc, obj, newSize) && OnlyOf(old(store), store, bpc, obj)
      ensures CountsOf([], store, bpc, fileSize, space)
    {
      hide Geometry; hide Addressable;
      hide Find; hide Coherent; hide View; hide Bits.Pow2; hide ChunksZeroed; hide ByteOf;
      hide AllTails; hide Cut; hide LastKept; hide OnlyOf; hide CountsOf;
      ghost var s, size := store, Size(obj);
      AddressBelow(newSize, Size(obj) + bpc);
      PruneChunks(obj, newSize);
      ghost var t := store;
      KeepLast(obj, newSize);
      TailOf([], s, bpc, fileSize, obj);
      CutBytes([], s, t, store, bpc, obj, newSize, size);
      CutOnly(s, t, store, bpc, obj, newSize, LastDel(size, bpc));
      CutCounts(s, t, store, bpc, obj, newSize, fileSize, space);
      CutTails([], s, [], store, bpc, obj, newSize, fileSize);
      fileSize := fileSize[obj := newSize];
    }

    /** The last chunk of a file that is cut inside it is written again, with zeros. */
    method KeepLast(obj: nat, newSize: nat)
      requires bpc > 0 && Geometry() && Coherent([], store, bpc) && obj > 0 && Addressable(newSize)
      modifies this`store
      ensures Coherent([], store, bpc) && LastKept([], old(store), store, bpc, obj, newSize / bpc + 1, newSize % bpc)
    {
      hide Geometry; hide Addressable;
      hide Find; hide Coherent; hide Bits.Pow2;
      Split(newSize);
      var (newFull, newPartial) := AddrToChunk(newSize, chunkShift, chunkDiv, bpc);
      hide AddrToChunk;
      InsideChunk(newSize, bpc);
      if newPartial != 0 {
        var lastChunk: nat := 1 + newFull;
        NotHeld([], obj, lastChunk);
        StoredLength([], store, obj, lastChunk, bpc);
        var local := Chunk(Keep(Stored(store, obj, lastChunk, bpc).data, newPartial, bpc), newPartial);
        WriteStore([], store, bpc, obj, lastChunk, local);
        store := store[(obj, lastChunk) := local];
      }
    }

    /** yaffs_resize_file: bytes below the new size stay, the others are zero. */
    method ResizeFile(obj: nat, newSize: nat)
      requires Valid() && Tails() && Counts() && obj > 0 && Addressable(Size(obj) + bpc) && Addressable(newSize) && (space || Addressable(newSize + bpc))
      modifies this`store, this`lastUse, this`fileSize, cache
      ensures Valid() && Tails() && Counts() && Size(obj) == newSize && OthersKeepSize(obj, old(fileSize))
      ensures Cut(old(cache[..]), old(store), cache[..], store, bpc, obj, newSize)
    {
      hide Find; hide Coherent; hide View; hide Bits.Pow2; hide ByteOf; hide AllTails; hide Cut; hide SameBytes; hide StoreFrom; hide CountsOf;
      ghost var c, s := cache[..], store;
      var oldSize := Size(obj);
      TailOf(c, s, bpc, fileSize, obj);
      FlushFileCache(obj);
      ghost var d, t := cache[..], store;
      SameViewBytes(c, s, d, t, bpc);
      SameTails(c, s, d, t, bpc, fileSize);
      SameStored(c, s, d, t, bpc, fileSize);
      CountsSame(c, s, d, t, bpc, fileSize, space);
      if newSize > oldSize {
        HandleHole(obj, newSize);
        CutNothing(c, s, d, t, cache[..], store, bpc, obj, oldSize, newSize);
        LargerTails(cache[..], store, bpc, fileSize, obj, newSize);
        LargerTails([], store, bpc, fileSize, obj, newSize);
        CountsLarger(cache[..], store, bpc, fileSize, fileSize[obj := newSize], space);
        CountsLarger([], store, bpc, fileSize, fileSize[obj := newSize], space);
        fileSize := fileSize[obj := newSize];
      } else if newSize < oldSize {
        StoreCoherent(d, t, bpc);
        ResizeFileDown(obj, newSize);
        CutUncached(d, t, store, bpc, obj, newSize);
        SameThenCut(c, s, d, t, d, store, bpc, obj, newSize);
        CutTails(d, t, d, store, bpc, obj, newSize, old(fileSize));
        CountsCut(d, t, store, bpc, obj, newSize, old(fileSize), space);
      } else {
        SameBytesSelf(d, t, bpc);
        CutNothing(c, s, d, t, d, t, bpc, obj, oldSize, newSize);
      }
    }
  }

  /** The last chunk that pruning looks at. */
  function LastDel(size: nat, bpc: nat): nat
    requires bpc > 0
  {
    if size > 0 then Quot(size - 1, bpc) + 1 else 1
  }

  lemma StoreCoherent(c: seq<Entry>, s: Store, bpc: nat)
    requires Coherent(c, s, bpc)
    ensures Coherent([], s, bpc)
  {
  }

  /** No chunk of another file changes, nor what is kept under number 0. */
  ghost predicate OnlyOf(s: Store, t: Store, bpc: nat, obj: nat) {
    forall o: nat, k: nat | o != obj || k == 0 :: Stored(t, o, k, bpc) == Stored(s, o, k, bpc)
  }

  lemma {:induction false} CutOnly(s: Store, t: Store, u: Store, bpc: nat, obj: nat, newSize: nat, hi: nat)
    requires bpc > 0 && ChunksZeroed([], s, t, bpc, obj, Quot(newSize + bpc - 1, bpc) + 1, hi)
    requires LastKept([], t, u, bpc, obj, Quot(newSize, bpc) + 1, Rem(newSize, bpc)) && Rem(newSize, bpc) <= bpc
    ensures OnlyOf(s, u, bpc, obj)
  {
    hide Stored; hide Find; hide Quot; hide Rem; hide Keep; hide Zeros;
    forall o: nat, k: nat | o != obj || k == 0 ensures Stored(u, o, k, bpc) == Stored(s, o, k, bpc) {
      NotHeld([], o, k);
      assert View([], t, o, k, bpc) == View([], s, o, k, bpc);
      assert View([], u, o, k, bpc) == View([], t, o, k, bpc);
    }
  }

  /** The store has the same chunk when it has the same bytes. */
  lemma {:induction false} SameChunk(s: Store, t: Store, bpc: nat, o: nat, k: nat)
    requires bpc > 0 && Coherent([], s, bpc) && Coherent([], t, bpc) && k > 0
    requires forall pos: nat | pos / bpc + 1 == k :: ByteOf([], t, bpc, o, pos) == ByteOf([], s, bpc, o, pos)
    ensures Stored(t, o, k, bpc).data == Stored(s, o, k, bpc).data
  {
    hide Find; hide Coherent; hide Stored;
    StoredLength([], s, o, k, bpc); StoredLength([], t, o, k, bpc);
    NotHeld([], o, k);
    var v, w := Stored(s, o, k, bpc).data, Stored(t, o, k, bpc).data;
    forall i | 0 <= i < bpc ensures v[i] == w[i] {
      var pos := (k - 1) * bpc + i;
      Bits.DivModUnique(pos, k - 1, i, bpc);
      assert ByteOf([], t, bpc, o, pos) == ByteOf([], s, bpc, o, pos);
    }
    assert v == w;
  }

  lemma {:induction false} SameStore(c: seq<Entry>, s: Store, t: Store, bpc: nat)
    requires bpc > 0 && Coherent(c, s, bpc) && Coherent([], t, bpc)
    requires forall o: nat, k: nat :: Stored(t, o, k, bpc).data == Stored(s, o, k, bpc).data
    ensures Coherent(c, t, bpc) && SameBytes(c, s, c, t, bpc)
  {
    hide Find; hide Stored;
    forall i | 0 <= i < |c| && c[i].owner > 0 ensures EntryOk(c[i], t, bpc) {
      assert EntryOk(c[i], s, bpc);
    }
  }

  /** Cutting off what is zero anyway changes nothing. */
  lemma {:induction false} CutZeros(c: seq<Entry>, s: Store, t: Store, bpc: nat, obj: nat, newSize: nat)
    requires bpc > 0 && Coherent(c, s, bpc) && Coherent([], t, bpc) && ZeroTail([], s, bpc, obj, newSize)
    requires Cut([], s, [], t, bpc, obj, newSize) && OnlyOf(s, t, bpc, obj)
    ensures Coherent(c, t, bpc) && SameBytes(c, s, c, t, bpc)
  {
    hide Coherent; hide Stored; hide ByteOf; hide View;
    StoreCoherent(c, s, bpc);
    forall o: nat, k: nat ensures Stored(t, o, k, bpc).data == Stored(s, o, k, bpc).data {
      if o == obj && k > 0 { SameChunk(s, t, bpc, o, k); }
    }
    SameStore(c, s, t, bpc);
  }

  /** A cut of the store is seen when no chunk of the file is in the cache. */
  lemma {:induction false} CutUncached(c: seq<Entry>, s: Store, t: Store, bpc: nat, obj: nat, newSize: nat)
    requires bpc > 0 && Coherent(c, s, bpc) && Coherent([], t, bpc) && forall j | 0 <= j < |c| :: c[j].owner != obj
    requires Cut([], s, [], t, bpc, obj, newSize) && OnlyOf(s, t, bpc, obj)
    ensures Coherent(c, t, bpc) && Cut(c, s, c, t, bpc, obj, newSize)
  {
    hide Find; hide Stored;
    forall i | 0 <= i < |c| && c[i].owner > 0 ensures EntryOk(c[i], t, bpc) {
      assert EntryOk(c[i], s, bpc);
    }
    hide Coherent; hide Cut;
    forall o: nat, pos: nat ensures ByteOf(c, t, bpc, o, pos) == if o == obj && pos >= newSize then 0 else ByteOf(c, s, bpc, o, pos) {
      CutUncachedAt(c, s, t, bpc, obj, newSize, o, pos);
    }
    CutMeans(c, s, t, bpc, obj, newSize);
  }

  lemma CutMeans(c: seq<Entry>, s: Store, t: Store, bpc: nat, obj: nat, newSize: nat)
    requires bpc > 0
    requires forall o: nat, pos: nat :: ByteOf(c, t, bpc, o, pos) == if o == obj && pos >= newSize then 0 else ByteOf(c, s, bpc, o, pos)
    ensures Cut(c, s, c, t, bpc, obj, newSize)
  {
    hide ByteOf;
  }

  lemma {:induction false} CutUncachedAt(c: seq<Entry>, s: Store, t: Store, bpc: nat, obj: nat, newSize: nat, o: nat, pos: nat)
    requires bpc > 0 && Cut([], s, [], t, bpc, obj, newSize) && OnlyOf(s, t, bpc, obj) && forall j | 0 <= j < |c| :: c[j].owner != obj
    ensures ByteOf(c, t, bpc, o, pos) == if o == obj && pos >= newSize then 0 else ByteOf(c, s, bpc, o, pos)
  {
    hide Find; hide Stored;
    var k := pos / bpc + 1;
    if o == obj {
      NotHeld(c, o, k); NotHeld([], o, k);
      assert ByteOf([], t, bpc, o, pos) == if pos >= newSize then 0 else ByteOf([], s, bpc, o, pos);
    } else {
      assert Stored(t, o, k, bpc) == Stored(s, o, k, bpc);
    }
  }

  /** What a change that no reader sees leaves in the store past the ends of files. */
  lemma {:induction false} SameStored(c: seq<Entry>, s: Store, d: seq<Entry>, t: Store, bpc: nat, sizes: map<nat, nat>)
    requires bpc > 0 && AllTails([], s, bpc, sizes) && AllTails(d, t, bpc, sizes) && StoreFrom(s, d, t, bpc)
    ensures AllTails([], t, bpc, sizes)
  {
    hide ByteOf; hide StoreFrom;
    forall o: nat, pos: nat | pos >= SizeIn(sizes, o) ensures ByteOf([], t, bpc, o, pos) == 0 {
      assert ZeroTail([], s, bpc, o, SizeIn(sizes, o)) && ZeroTail(d, t, bpc, o, SizeIn(sizes, o));
      StoredByteFrom(s, d, t, bpc, o, pos);
    }
  }

  lemma SameBytesTrans(a: seq<Entry>, r: Store, c: seq<Entry>, s: Store, d: seq<Entry>, t: Store, bpc: nat)
    requires bpc > 0 && SameBytes(a, r, c, s, bpc) && SameBytes(c, s, d, t, bpc)
    ensures SameBytes(a, r, d, t, bpc)
  {
    hide ByteOf;
  }

  lemma SameSizes(c: seq<Entry>, s: Store, bpc: nat, before: map<nat, nat>, after: map<nat, nat>)
    requires bpc > 0 && AllTails(c, s, bpc, before) && forall o: nat :: SizeIn(after, o) == SizeIn(before, o)
    ensures AllTails(c, s, bpc, after)
  {
    hide ZeroTail;
  }

  /** The address is the start of a chunk. */
  ghost predicate Whole(at: nat, bpc: nat)
    requires bpc > 0
  {
    at % bpc == 0
  }

  lemma TailFrom(c: seq<Entry>, s: Store, bpc: nat, sizes: map<nat, nat>, obj: nat, pos: nat)
    requires bpc > 0 && AllTails(c, s, bpc, sizes) && pos >= SizeIn(sizes, obj)
    ensures ZeroTail(c, s, bpc, obj, pos)
  {
    hide ByteOf;
    assert ZeroTail(c, s, bpc, obj, SizeIn(sizes, obj));
  }

  /** A whole chunk past the end of its file is zero in the store and as it is seen. */
  lemma {:induction false} NoLossPastEnd(c: seq<Entry>, s: Store, bpc: nat, obj: nat, pos: nat, n: nat)
    requires bpc > 0 && Coherent(c, s, bpc) && ZeroTail(c, s, bpc, obj, pos) && ZeroTail([], s, bpc, obj, pos) && Whole(pos + n, bpc)
    ensures !Loses(c, s, bpc, obj, pos, n)
  {
    hide Coherent; hide Find; hide Stored; hide Evicts; hide Grabbed;
    var k := (pos + n) / bpc + 1;
    Remainder(pos + n, bpc);
    NotHeld([], obj, k);
    ViewLength(c, s, obj, k, bpc); StoredLength(c, s, obj, k, bpc);
    var v, w := View(c, s, obj, k, bpc).data, Stored(s, obj, k, bpc).data;
    hide View;
    forall i | 0 <= i < bpc ensures v[i] == w[i] {
      ZeroThere(c, s, bpc, obj, pos, n, i);
    }
    assert v == w;
  }

  lemma {:induction false} ZeroThere(c: seq<Entry>, s: Store, bpc: nat, obj: nat, pos: nat, n: nat, i: nat)
    requires bpc > 0 && ZeroTail(c, s, bpc, obj, pos) && ZeroTail([], s, bpc, obj, pos) && (pos + n) % bpc == 0 && i < bpc
    requires var k := (pos + n) / bpc + 1; |View(c, s, obj, k, bpc).data| == bpc == |Stored(s, obj, k, bpc).data|
    ensures var k := (pos + n) / bpc + 1; View(c, s, obj, k, bpc).data[i] == 0 && Stored(s, obj, k, bpc).data[i] == 0
  {
    hide Find; hide Stored;
    var q := (pos + n) / bpc;
    Remainder(pos + n, bpc);
    NotHeld([], obj, q + 1);
    Bits.DivModUnique(pos + n + i, q, i, bpc);
    assert ByteOf(c, s, bpc, obj, pos + n + i) == 0 && ByteOf([], s, bpc, obj, pos + n + i) == 0;
  }

  lemma EntryAgrees(c: seq<Entry>, s: Store, bpc: nat, i: nat)
    requires Coherent(c, s, bpc) && i < |c| && c[i].owner > 0
    ensures EntryOk(c[i], s, bpc)
  {
  }

  lemma PositiveProduct(a: nat, b: nat)
    requires a > 0 && b > 0
    ensures a * b > 0
  {
  }

  lemma CoherentUnique(c: seq<Entry>, s: Store, bpc: nat)
    requires Coherent(c, s, bpc)
    ensures Unique(c)
    ensures forall i | 0 <= i < |c| && c[i].owner > 0 :: |c[i].data| == bpc
    ensures forall k | k in s :: |s[k].data| == bpc
  {
    forall i | 0 <= i < |c| && c[i].owner > 0 ensures |c[i].data| == bpc {
      assert EntryOk(c[i], s, bpc);
    }
  }

  lemma InsideChunk(at: nat, bpc: nat)
    requires bpc > 0
    ensures at % bpc < bpc && at % bpc <= at
  {
    Remainder(at, bpc);
  }

  lemma {:induction false} PieceBytes(c: seq<Entry>, s: Store, d: seq<Entry>, t: Store, bpc: nat, obj: nat, at: nat, piece: Bytes)
    requires bpc > 0 && SameView(c, s, d, t, bpc) && at % bpc + |piece| <= bpc
    requires at % bpc + |piece| <= |View(d, t, obj, at / bpc + 1, bpc).data|
    requires piece == View(d, t, obj, at / bpc + 1, bpc).data[at % bpc..at % bpc + |piece|]
    ensures forall k | 0 <= k < |piece| :: piece[k] == ByteOf(c, s, bpc, obj, at + k)
  {
    hide View; hide SameView; hide ByteOf;
    forall k | 0 <= k < |piece| ensures piece[k] == ByteOf(c, s, bpc, obj, at + k) {
      PieceByte(c, s, d, t, bpc, obj, at, piece, k);
    }
  }

  lemma {:induction false} PieceByte(c: seq<Entry>, s: Store, d: seq<Entry>, t: Store, bpc: nat, obj: nat, at: nat, piece: Bytes, k: nat)
    requires bpc > 0 && SameView(c, s, d, t, bpc) && at % bpc + |piece| <= bpc && k < |piece|
    requires at % bpc + |piece| <= |View(d, t, obj, at / bpc + 1, bpc).data|
    requires piece == View(d, t, obj, at / bpc + 1, bpc).data[at % bpc..at % bpc + |piece|]
    ensures piece[k] == ByteOf(c, s, bpc, obj, at + k)
  {
    InChunk(at, k, bpc);
    hide View;
    var v := View(d, t, obj, at / bpc + 1, bpc).data;
    assert View(c, s, obj, at / bpc + 1, bpc).data == v;
    assert piece[k] == v[at % bpc + k];
  }

  lemma WholePatch(v: Bytes, start: nat, piece: Bytes)
    requires |piece| == |v| && start + |piece| <= |v|
    ensures Patch(v, start, piece) == piece
  {
  }

  lemma WroteNothing(c: seq<Entry>, s: Store, bpc: nat, obj: nat, offset: nat)
    requires bpc > 0
    ensures Wrote(c, s, c, s, bpc, obj, offset, [])
  {
  }

  lemma {:induction false} WroteThenSame(a: seq<Entry>, r: Store, c: seq<Entry>, s: Store, d: seq<Entry>, t: Store, bpc: nat,
                                         obj: nat, offset: nat, x: Bytes)
    requires bpc > 0 && Wrote(a, r, c, s, bpc, obj, offset, x) && SameBytes(c, s, d, t, bpc)
    ensures Wrote(a, r, d, t, bpc, obj, offset, x)
  {
    hide ByteOf;
  }

  lemma {:induction false} WroteTails(c: seq<Entry>, s: Store, d: seq<Entry>, t: Store, bpc: nat, obj: nat, offset: nat, x: Bytes,
                                      before: map<nat, nat>, after: map<nat, nat>)
    requires bpc > 0 && Wrote(c, s, d, t, bpc, obj, offset, x)
    requires AllTails(c, s, bpc, before)
    requires SizeIn(after, obj) >= offset + |x| && forall o: nat :: SizeIn(after, o) >= SizeIn(before, o)
    ensures AllTails(d, t, bpc, after)
  {
    hide ByteOf;
    forall o: nat, pos: nat | pos >= SizeIn(after, o) ensures ByteOf(d, t, bpc, o, pos) == 0 {
      assert ZeroTail(c, s, bpc, o, SizeIn(before, o));
    }
  }

  /** Chunks lo to hi of the file read as zeros, all others as before. */
  ghost predicate ChunksZeroed(c: seq<Entry>, s: Store, t: Store, bpc: nat, obj: nat, lo: int, hi: int) {
    forall o: nat, k: nat :: View(c, t, o, k, bpc) == if o == obj && lo <= k <= hi then Nothing(bpc) else View(c, s, o, k, bpc)
  }

  lemma NothingZeroed(c: seq<Entry>, s: Store, bpc: nat, obj: nat, lo: int, hi: int)
    requires lo > hi
    ensures ChunksZeroed(c, s, s, bpc, obj, lo, hi)
  {
    hide View;
  }

  lemma ZeroOneMore(c: seq<Entry>, s: Store, t: Store, u: Store, bpc: nat, obj: nat, i: nat, hi: int)
    requires ChunksZeroed(c, s, t, bpc, obj, i + 1, hi) && ChangedView(c, t, c, u, bpc, obj, i, Nothing(bpc)) && i <= hi
    ensures ChunksZeroed(c, s, u, bpc, obj, i, hi)
  {
    hide View; hide Zeros;
  }

  lemma LessZeroed(c: seq<Entry>, s: Store, t: Store, bpc: nat, obj: nat, lo: int, lo': int, hi: int)
    requires ChunksZeroed(c, s, t, bpc, obj, lo, hi) && (lo == lo' || (lo > hi && lo' > hi))
    ensures ChunksZeroed(c, s, t, bpc, obj, lo', hi)
  {
    hide View;
  }

  lemma NotHeld(c: seq<Entry>, obj: nat, chunk: nat)
    requires forall j | 0 <= j < |c| :: c[j].owner != obj
    ensures Find(c, obj, chunk) < 0
  {
    hide Find;
    FindNone(c, obj, chunk);
  }

  lemma SameBytesSelf(c: seq<Entry>, s: Store, bpc: nat)
    requires bpc > 0
    ensures SameBytes(c, s, c, s, bpc)
  {
  }

  /** Zeros written at the end of a file that is zero past its end. */
  lemma {:induction false} ZerosUnseen(a: seq<Entry>, r: Store, c: seq<Entry>, s: Store, d: seq<Entry>, t: Store, bpc: nat,
                                       obj: nat, pos: nat, z: Bytes)
    requires bpc > 0 && SameBytes(a, r, c, s, bpc) && Wrote(c, s, d, t, bpc, obj, pos, z)
    requires ZeroTail(c, s, bpc, obj, pos) && forall i | 0 <= i < |z| :: z[i] == 0
    ensures SameBytes(a, r, d, t, bpc)
  {
    hide ByteOf;
  }

  lemma TailOf(c: seq<Entry>, s: Store, bpc: nat, sizes: map<nat, nat>, obj: nat)
    requires bpc > 0 && AllTails(c, s, bpc, sizes)
    ensures ZeroTail(c, s, bpc, obj, SizeIn(sizes, obj))
  {
  }

  /** Bytes below the new size as before, zero from there on; other files untouched. */
  ghost predicate Cut(c: seq<Entry>, s: Store, d: seq<Entry>, t: Store, bpc: nat, obj: nat, newSize: nat)
    requires bpc > 0
  {
    forall o: nat, pos: nat :: ByteOf(d, t, bpc, o, pos) == if o == obj && pos >= newSize then 0 else ByteOf(c, s, bpc, o, pos)
  }

  lemma StoredLength(c: seq<Entry>, s: Store, obj: nat, chunk: nat, bpc: nat)
    requires Coherent(c, s, bpc)
    ensures |Stored(s, obj, chunk, bpc).data| == bpc
  {
  }

  /** The first n bytes of v, then zeros. */
  function Keep(v: Bytes, n: nat, bpc: nat): (r: Bytes)
    requires n <= bpc && |v| == bpc
    ensures |r| == bpc
    ensures forall i | 0 <= i < bpc :: r[i] == if i < n then v[i] else 0
  {
    v[..n] + Zeros(bpc - n)
  }

  /** What the last chunk of a cut file reads as. */
  ghost predicate LastKept(c: seq<Entry>, t: Store, u: Store, bpc: nat, obj: nat, chunk: nat, n: nat)
    requires n <= bpc
  {
    if n == 0 then u == t
    else |View(c, t, obj, chunk, bpc).data| == bpc
         && ChangedView(c, t, c, u, bpc, obj, chunk, Chunk(Keep(View(c, t, obj, chunk, bpc).data, n, bpc), n))
  }

  lemma {:induction false} CutBytes(c: seq<Entry>, s: Store, t: Store, u: Store, bpc: nat, obj: nat, newSize: nat, size: nat)
    requires bpc > 0 && newSize <= size && ZeroTail(c, s, bpc, obj, size)
    requires ChunksZeroed(c, s, t, bpc, obj, (newSize + bpc - 1) / bpc + 1, LastDel(size, bpc))
    requires LastKept(c, t, u, bpc, obj, newSize / bpc + 1, newSize % bpc)
    ensures Cut(c, s, c, u, bpc, obj, newSize)
  {
    hide View; hide ZeroTail; hide ChunksZeroed; hide LastKept; hide ByteOf;
    forall o: nat, pos: nat ensures ByteOf(c, u, bpc, o, pos) == if o == obj && pos >= newSize then 0 else ByteOf(c, s, bpc, o, pos) {
      CutAt(c, s, t, u, bpc, obj, newSize, size, o, pos);
    }
  }

  function Quot(a: nat, n: nat): nat
    requires n > 0
  {
    a / n
  }

  function Rem(a: nat, n: nat): nat
    requires n > 0
  {
    a % n
  }

  lemma {:induction false} CutAt(c: seq<Entry>, s: Store, t: Store, u: Store, bpc: nat, obj: nat, newSize: nat, size: nat, o: nat, pos: nat)
    requires bpc > 0 && newSize <= size && ZeroTail(c, s, bpc, obj, size) && Rem(newSize, bpc) < bpc
    requires ChunksZeroed(c, s, t, bpc, obj, Quot(newSize + bpc - 1, bpc) + 1, LastDel(size, bpc))
    requires LastKept(c, t, u, bpc, obj, Quot(newSize, bpc) + 1, Rem(newSize, bpc))
    ensures ByteOf(c, u, bpc, o, pos) == if o == obj && pos >= newSize then 0 else ByteOf(c, s, bpc, o, pos)
  {
    hide ByteOf; hide ZeroTail; hide ChunksZeroed; hide LastKept; hide View; hide Quot; hide Rem;
    WhereCut(pos, newSize, size, bpc);
    ZeroedByte(c, s, t, bpc, obj, Quot(newSize + bpc - 1, bpc) + 1, LastDel(size, bpc), o, pos);
    KeptByte(c, t, u, bpc, obj, Quot(newSize, bpc) + 1, Rem(newSize, bpc), o, pos);
    TailByte(c, s, bpc, obj, size, pos);
  }

  lemma TailByte(c: seq<Entry>, s: Store, bpc: nat, obj: nat, size: nat, pos: nat)
    requires bpc > 0 && ZeroTail(c, s, bpc, obj, size)
    ensures pos >= size ==> ByteOf(c, s, bpc, obj, pos) == 0
  {
    hide ByteOf;
  }

  lemma ZeroedByte(c: seq<Entry>, s: Store, t: Store, bpc: nat, obj: nat, lo: int, hi: int, o: nat, pos: nat)
    requires bpc > 0 && ChunksZeroed(c, s, t, bpc, obj, lo, hi)
    ensures ByteOf(c, t, bpc, o, pos) == if o == obj && lo <= Quot(pos, bpc) + 1 <= hi then 0 else ByteOf(c, s, bpc, o, pos)
  {
    hide View;
  }

  lemma KeptByte(c: seq<Entry>, t: Store, u: Store, bpc: nat, obj: nat, chunk: nat, n: nat, o: nat, pos: nat)
    requires bpc > 0 && n < bpc && LastKept(c, t, u, bpc, obj, chunk, n)
    ensures ByteOf(c, u, bpc, o, pos) == if n > 0 && o == obj && Quot(pos, bpc) + 1 == chunk && Rem(pos, bpc) >= n then 0 else ByteOf(c, t, bpc, o, pos)
  {
    hide View; hide Keep;
  }

  /** Where a position lies relative to a cut. */
  lemma {:induction false} WhereCut(pos: nat, newSize: nat, size: nat, bpc: nat)
    requires bpc > 0 && newSize <= size
    ensures Rem(pos, bpc) < bpc
    ensures Rem(newSize, bpc) == 0 ==> Quot(newSize + bpc - 1, bpc) == Quot(newSize, bpc)
    ensures Rem(newSize, bpc) != 0 ==> Quot(newSize + bpc - 1, bpc) == Quot(newSize, bpc) + 1
    ensures Quot(pos, bpc) < Quot(newSize, bpc) ==> pos < newSize
    ensures Quot(pos, bpc) > Quot(newSize, bpc) ==> pos >= newSize
    ensures Quot(pos, bpc) == Quot(newSize, bpc) ==> (pos < newSize <==> Rem(pos, bpc) < Rem(newSize, bpc))
    ensures Quot(pos, bpc) + 1 > LastDel(size, bpc) ==> pos >= size
  {
    var q, r := newSize / bpc, newSize % bpc;
    Remainder(newSize, bpc); Remainder(pos, bpc);
    if r == 0 {
      Bits.DivModUnique(newSize + bpc - 1, q, bpc - 1, bpc);
    } else {
      assert (q + 1) * bpc == q * bpc + bpc;
      Bits.DivModUnique(newSize + bpc - 1, q + 1, r - 1, bpc);
    }
    DivOrder(pos, newSize, bpc); DivOrder(newSize, pos, bpc);
    if size > 0 { DivOrder(size - 1, pos, bpc); }
    if pos / bpc == q { SamePlace(pos, newSize, bpc); }
  }

  lemma {:induction false} CutTails(c: seq<Entry>, s: Store, d: seq<Entry>, t: Store, bpc: nat, obj: nat, newSize: nat, sizes: map<nat, nat>)
    requires bpc > 0 && AllTails(c, s, bpc, sizes) && Cut(c, s, d, t, bpc, obj, newSize)
    ensures AllTails(d, t, bpc, sizes[obj := newSize])
  {
    hide ByteOf;
    forall o: nat, pos: nat | pos >= SizeIn(sizes[obj := newSize], o) ensures ByteOf(d, t, bpc, o, pos) == 0 {
      assert ZeroTail(c, s, bpc, o, SizeIn(sizes, o));
    }
  }

  lemma {:induction false} SameTails(c: seq<Entry>, s: Store, d: seq<Entry>, t: Store, bpc: nat, sizes: map<nat, nat>)
    requires bpc > 0 && AllTails(c, s, bpc, sizes) && SameBytes(c, s, d, t, bpc)
    ensures AllTails(d, t, bpc, sizes)
  {
    hide ByteOf;
    forall o: nat, pos: nat | pos >= SizeIn(sizes, o) ensures ByteOf(d, t, bpc, o, pos) == 0 {
      assert ZeroTail(c, s, bpc, o, SizeIn(sizes, o));
    }
  }

  lemma {:induction false} LargerTails(c: seq<Entry>, s: Store, bpc: nat, sizes: map<nat, nat>, obj: nat, newSize: nat)
    requires bpc > 0 && AllTails(c, s, bpc, sizes) && newSize >= SizeIn(sizes, obj)
    ensures AllTails(c, s, bpc, sizes[obj := newSize])
  {
    hide ByteOf;
    forall o: nat, pos: nat | pos >= SizeIn(sizes[obj := newSize], o) ensures ByteOf(c, s, bpc, o, pos) == 0 {
      assert ZeroTail(c, s, bpc, o, SizeIn(sizes, o));
    }
  }

  lemma {:induction false} CutNothing(a: seq<Entry>, r: Store, c: seq<Entry>, s: Store, d: seq<Entry>, t: Store, bpc: nat,
                                      obj: nat, size: nat, newSize: nat)
    requires bpc > 0 && SameBytes(a, r, c, s, bpc) && SameBytes(c, s, d, t, bpc) && ZeroTail(a, r, bpc, obj, size) && newSize >= size
    ensures Cut(a, r, d, t, bpc, obj, newSize)
  {
    hide ByteOf;
  }

  lemma {:induction false} SameThenCut(a: seq<Entry>, r: Store, c: seq<Entry>, s: Store, d: seq<Entry>, t: Store, bpc: nat, obj: nat, newSize: nat)
    requires bpc > 0 && SameBytes(a, r, c, s, bpc) && Cut(c, s, d, t, bpc, obj, newSize)
    ensures Cut(a, r, d, t, bpc, obj, newSize)
  {
    hide ByteOf;
  }
}
