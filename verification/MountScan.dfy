/** yaffs2_scan_backwards: the blocks that hold data are sorted by age and scanned newest first, last
    chunk first, and every file found is what the log means.
 */
module MountScan {
  import opened LogReplay
  import opened LogExact
  import Qsort

  const SEQUENCE_CHECKPOINT_DATA := 0x21
  const SEQUENCE_BAD_BLOCK := 0xffff_0000
  const LOWEST_SEQUENCE_NUMBER := 0x1000
  const HIGHEST_SEQUENCE_NUMBER := 0xefff_ff00
  const INT_LIMIT := 0x8000_0000

  datatype BlockState = Empty | NeedsScan | Checkpoint | Dead

  /** A block as the driver reports it, with the tags of its chunks. */
  datatype Block = Block(state: BlockState, seqNumber: nat, tags: seq<Tags>)

  /** struct yaffs_block_index, with the sequence number before it is stored in an int. */
  datatype BlockIndex = BlockIndex(seqNumber: int, block: int)

  type ScanIndex = b: BlockIndex | 0 <= b.seqNumber < LIMIT_32 && 0 <= b.block < INT_LIMIT witness BlockIndex(0, 0)

  /** An unsigned number stored in an int, and the difference of two ints, with 32-bit wrap-around. */
  function AsInt(u: int): int { if u < INT_LIMIT then u else u - LIMIT_32 }

  function Wrap32(x: int): int { (x + INT_LIMIT) % LIMIT_32 - INT_LIMIT }

  /** yaffs2_ybicmp. */
  function Ybicmp(a: ScanIndex, b: ScanIndex): int {
    if AsInt(a.seqNumber) == AsInt(b.seqNumber) then Wrap32(a.block - b.block)
    else Wrap32(AsInt(a.seqNumber) - AsInt(b.seqNumber))
  }

  /** The order of age: by sequence number, then by block number. */
  function AgeCmp(a: ScanIndex, b: ScanIndex): int {
    if a.seqNumber == b.seqNumber then a.block - b.block else a.seqNumber - b.seqNumber
  }

  lemma AgePreorder()
    ensures Qsort.Preorder(AgeCmp)
  {
  }

  /** Two sequence numbers less than half the number range apart. */
  predicate Near(a: int, b: int) { -INT_LIMIT < a - b < INT_LIMIT }

  predicate SameSign(x: int, y: int) { (x < 0 <==> y < 0) && (x > 0 <==> y > 0) }

  /** The comparison tells the older of two blocks, whichever comes first, if and only if their sequence numbers are
      near; then it is the difference itself.
   */
  lemma {:induction false} YbicmpAgeIff(a: ScanIndex, b: ScanIndex)
    ensures SameSign(Ybicmp(a, b), AgeCmp(a, b)) && SameSign(Ybicmp(b, a), AgeCmp(b, a)) <==> Near(a.seqNumber, b.seqNumber)
    ensures Near(a.seqNumber, b.seqNumber) ==> Ybicmp(a, b) == AgeCmp(a, b)
  {
    YbicmpIs(a, b);
    YbicmpIs(b, a);
    hide Ybicmp;
  }

  lemma {:induction false} YbicmpIs(a: ScanIndex, b: ScanIndex)
    ensures var d := a.seqNumber - b.seqNumber;
      Ybicmp(a, b) == if d == 0 then a.block - b.block else if d >= INT_LIMIT then d - LIMIT_32 else if d < -INT_LIMIT then d + LIMIT_32 else d
  {
    var d := a.seqNumber - b.seqNumber;
    var e := AsInt(a.seqNumber) - AsInt(b.seqNumber);
    assert e == d || e == d - LIMIT_32 || e == d + LIMIT_32;
    assert Wrap32(e) == Wrap32(d) && Wrap32(a.block - b.block) == a.block - b.block;
    assert Wrap32(d) == if d >= INT_LIMIT then d - LIMIT_32 else if d < -INT_LIMIT then d + LIMIT_32 else d;
  }

  /** Three legal sequence numbers that the comparison puts in a circle. */
  lemma YbicmpCircle()
    ensures var a, b, c := BlockIndex(0x1000, 1), BlockIndex(0x6000_0000, 2), BlockIndex(0xc000_0000, 3);
      Ybicmp(a, b) < 0 && Ybicmp(b, c) < 0 && Ybicmp(c, a) < 0
  {
  }

  /** The blocks the scan visits. */
  predicate Scannable(b: Block) {
    && b.state == NeedsScan && b.seqNumber != SEQUENCE_CHECKPOINT_DATA && b.seqNumber != SEQUENCE_BAD_BLOCK
    && LOWEST_SEQUENCE_NUMBER <= b.seqNumber < HIGHEST_SEQUENCE_NUMBER
  }

  /** The lowest and the highest number that a block is scanned with, their neighbours, and blocks never scanned. */
  lemma ScannedNumbers(tags: seq<Tags>)
    ensures Scannable(Block(NeedsScan, 0x1000, tags)) && !Scannable(Block(NeedsScan, 0xfff, tags))
    ensures Scannable(Block(NeedsScan, 0xefff_feff, tags)) && !Scannable(Block(NeedsScan, 0xefff_ff00, tags))
    ensures !Scannable(Block(Empty, 0x1000, tags)) && !Scannable(Block(Checkpoint, 0x1000, tags)) && !Scannable(Block(Dead, 0x1000, tags))
  {
  }

  /** The sequence numbers in use are less than half the number range apart. */
  ghost predicate AllNear(blocks: seq<Block>) {
    forall i, j | 0 <= i < |blocks| && 0 <= j < |blocks| && Scannable(blocks[i]) && Scannable(blocks[j]) ::
      Near(blocks[i].seqNumber, blocks[j].seqNumber)
  }

  /** A device of blocks start, start + 1, ... of equal size. */
  ghost predicate Device(blocks: seq<Block>, start: nat, perBlock: nat) {
    && start > 0 && perBlock > 0 && start + |blocks| < INT_LIMIT
    && (forall i | 0 <= i < |blocks| :: |blocks[i].tags| == perBlock)
    && AllNear(blocks)
  }

  ghost function ToScan(blocks: seq<Block>, start: nat): seq<BlockIndex> {
    if blocks == [] then []
    else
      var n := |blocks| - 1;
      ToScan(blocks[..n], start) + (if Scannable(blocks[n]) then [BlockIndex(blocks[n].seqNumber, start + n)] else [])
  }

  ghost predicate InRange(order: seq<BlockIndex>, start: nat, n: nat) {
    forall k | 0 <= k < |order| :: start <= order[k].block < start + n && 0 <= order[k].seqNumber
  }

  lemma {:induction false} ToScanInRange(blocks: seq<Block>, start: nat)
    ensures InRange(ToScan(blocks, start), start, |blocks|) && |ToScan(blocks, start)| <= |blocks|
  {
    hide Scannable;
    if blocks != [] { ToScanInRange(blocks[..|blocks| - 1], start); }
  }

  function ChunkNumber(block: nat, perBlock: nat, c: nat): nat { block * perBlock + c }

  ghost function PagesOf(b: BlockIndex, blocks: seq<Block>, start: nat, perBlock: nat): (r: seq<Page>)
    requires Device(blocks, start, perBlock) && start <= b.block < start + |blocks| && 0 <= b.seqNumber
    ensures |r| == perBlock
  {
    seq(perBlock, c requires 0 <= c < perBlock => Page(ChunkNumber(b.block, perBlock, c), blocks[b.block - start].tags[c], b.seqNumber))
  }

  /** The chunks of blocks in order of age. */
  ghost function LogOf(order: seq<BlockIndex>, blocks: seq<Block>, start: nat, perBlock: nat): seq<Page>
    requires Device(blocks, start, perBlock) && InRange(order, start, |blocks|)
  {
    if order == [] then []
    else
      var n := |order| - 1;
      LogOf(order[..n], blocks, start, perBlock) + PagesOf(order[n], blocks, start, perBlock)
  }

  /** Oldest block first: by sequence number, then by block number. */
  ghost predicate ByAge(order: seq<BlockIndex>) {
    forall i, j | 0 <= i < j < |order| ::
      order[i].seqNumber < order[j].seqNumber || (order[i].seqNumber == order[j].seqNumber && order[i].block <= order[j].block)
  }

  /** The files known so far, created when first seen. */
  class Scanner {
    const bytesPerChunk: nat
    var files: map<nat, File>

    ghost function FileOf(id: nat): File
      reads this
    {
      if id in files then files[id] else NewFile(bytesPerChunk)
    }

    constructor (bytesPerChunk: nat)
      ensures this.bytesPerChunk == bytesPerChunk
      ensures forall id: nat :: FileOf(id) == NewFile(bytesPerChunk)
    {
      this.bytesPerChunk := bytesPerChunk;
      files := map[];
    }

    method FindOrCreate(id: nat) returns (f: File)
      modifies this
      ensures f == old(FileOf(id)) && files == old(files)[id := f]
    {
      if id !in files {
        files := files[id := NewFile(bytesPerChunk)];
      }
      f := files[id];
    }

    /** yaffs2_scan_chunk. */
    method ScanChunk(p: Page)
      modifies this
      ensures forall id: nat :: FileOf(id) == ScanStep(old(FileOf(id)), p, bytesPerChunk, id)
    {
      hide Base32; hide MaxFileSize;
      var t := p.tags;
      if !t.used || t.unfixed {
        return;
      }
      if t.objId > MAX_OBJECT_ID || t.chunkId > MAX_CHUNK_ID || t.objId == OBJECTID_SUMMARY
         || (t.chunkId > 0 && t.nBytes > bytesPerChunk) || t.seqNumber != p.blockSeq {
        return;
      }
      var f := FindOrCreate(t.objId);
      if t.chunkId > 0 {
        var base := Base32(t.chunkId, bytesPerChunk);
        if base < f.shrinkSize {
          if t.chunkId !in f.chunks {
            f := f.(chunks := f.chunks[t.chunkId := p.chunk], live := f.live + {p.chunk});
          }
          var endpos := base + t.nBytes;
          if !f.valid && f.size < endpos {
            f := f.(size := endpos);
          }
        }
      } else if f.valid {
        var thisSize, isShrink := t.size, t.isShrink;
        if t.parent == OBJECTID_DELETED || t.parent == OBJECTID_UNLINKED {
          thisSize, isShrink := 0, true;
        }
        if isShrink && f.shrinkSize > thisSize {
          f := f.(shrinkSize := thisSize);
        }
      } else {
        f := f.(valid := true, hdrChunk := p.chunk, live := f.live + {p.chunk});
        if f.size < t.size {
          f := f.(size := t.size);
        }
        if f.shrinkSize > t.size {
          f := f.(shrinkSize := t.size);
        }
      }
      files := files[t.objId := f];
    }

    /** One block, last chunk first. */
    method ScanBlock(b: BlockIndex, blocks: seq<Block>, start: nat, perBlock: nat)
      requires Device(blocks, start, perBlock) && start <= b.block < start + |blocks| && 0 <= b.seqNumber
      modifies this
      ensures forall id: nat :: FileOf(id) == Scan(old(FileOf(id)), PagesOf(b, blocks, start, perBlock), bytesPerChunk, id)
    {
      hide ScanStep; hide ChunkNumber;
      ghost var pages := PagesOf(b, blocks, start, perBlock);
      var c := perBlock;
      assert pages[c..] == [];
      while c > 0
        invariant c <= perBlock
        invariant forall id: nat :: FileOf(id) == Scan(old(FileOf(id)), pages[c..], bytesPerChunk, id)
      {
        c := c - 1;
        assert pages[c..][1..] == pages[c + 1..] && pages[c..][0] == pages[c];
        ScanChunk(Page(ChunkNumber(b.block, perBlock, c), blocks[b.block - start].tags[c], b.seqNumber));
      }
      assert pages[0..] == pages;
    }

    /** yaffs2_scan_backwards: whatever the age order of the blocks, each file is what the log means. */
    method ScanBackwards(blocks: seq<Block>, start: nat, perBlock: nat) returns (order: seq<BlockIndex>, seqNumber: nat)
      requires Device(blocks, start, perBlock) && bytesPerChunk > 0
      requires forall id: nat :: FileOf(id) == NewFile(bytesPerChunk)
      modifies this
      ensures multiset(order) == multiset(ToScan(blocks, start)) && ByAge(order) && InRange(order, start, |blocks|)
      ensures Highest(order, seqNumber)
      ensures forall id: nat :: FileOf(id) == Scan(NewFile(bytesPerChunk), LogOf(order, blocks, start, perBlock), bytesPerChunk, id)
      ensures var log := LogOf(order, blocks, start, perBlock);
        forall id: nat | Below4G(log, bytesPerChunk, id) :: Content(FileOf(id).chunks, FileOf(id).size) == Replay(log, bytesPerChunk, id, false)
      ensures var log := LogOf(order, blocks, start, perBlock);
        forall id: nat :: Content(FileOf(id).chunks, FileOf(id).size) == Replay(log, bytesPerChunk, id, false)
                     <==> Recoverable(log, bytesPerChunk, id)
    {
      hide Scan; hide Replay; hide LogOf; hide Recoverable; hide Below4G;
      order, seqNumber := SortBlocks(blocks, start);
      ScanSorted(order, blocks, start, perBlock);
      ghost var log := LogOf(order, blocks, start, perBlock);
      forall id: nat
        ensures Content(FileOf(id).chunks, FileOf(id).size) == Replay(log, bytesPerChunk, id, false) <==> Recoverable(log, bytesPerChunk, id)
        ensures Below4G(log, bytesPerChunk, id) ==> Recoverable(log, bytesPerChunk, id)
      {
        RecoveredIff(log, bytesPerChunk, id);
        if Below4G(log, bytesPerChunk, id) { Below4GRecoverable(log, bytesPerChunk, id); }
      }
    }

    /** The blocks, newest first. */
    method ScanSorted(order: seq<BlockIndex>, blocks: seq<Block>, start: nat, perBlock: nat)
      requires Device(blocks, start, perBlock) && InRange(order, start, |blocks|)
      requires forall id: nat :: FileOf(id) == NewFile(bytesPerChunk)
      modifies this
      ensures forall id: nat :: FileOf(id) == Scan(NewFile(bytesPerChunk), LogOf(order, blocks, start, perBlock), bytesPerChunk, id)
    {
      hide Scan; hide PagesOf; hide LogOf; hide NewFile; hide Device;
      var k := |order|;
      ghost var log := [];
      ScanNothing(bytesPerChunk);
      assert order[..k] == order;
      while k > 0
        invariant k <= |order|
        invariant LogOf(order[..k], blocks, start, perBlock) + log == LogOf(order, blocks, start, perBlock)
        invariant forall id: nat :: FileOf(id) == Scan(NewFile(bytesPerChunk), log, bytesPerChunk, id)
      {
        k := k - 1;
        ghost var pages := PagesOf(order[k], blocks, start, perBlock);
        LogOfNext(order, k, log, blocks, start, perBlock);
        ScanBlock(order[k], blocks, start, perBlock);
        forall id: nat ensures FileOf(id) == Scan(NewFile(bytesPerChunk), pages + log, bytesPerChunk, id) {
          ScanAppend(NewFile(bytesPerChunk), pages, log, bytesPerChunk, id);
        }
        log := pages + log;
      }
      LogOfNone(order[..0], log, blocks, start, perBlock);
    }
  }

  lemma {:induction false} LogOfNext(order: seq<BlockIndex>, k: nat, log: seq<Page>, blocks: seq<Block>, start: nat, perBlock: nat)
    requires Device(blocks, start, perBlock) && InRange(order, start, |blocks|) && k < |order|
    ensures LogOf(order[..k], blocks, start, perBlock) + (PagesOf(order[k], blocks, start, perBlock) + log)
         == LogOf(order[..k + 1], blocks, start, perBlock) + log
  {
    hide PagesOf;
    assert order[..k + 1][..k] == order[..k];
  }

  lemma LogOfNone(order: seq<BlockIndex>, log: seq<Page>, blocks: seq<Block>, start: nat, perBlock: nat)
    requires Device(blocks, start, perBlock) && order == []
    ensures InRange(order, start, |blocks|) && LogOf(order, blocks, start, perBlock) + log == log
  {
  }

  lemma ScanNothing(bpc: nat)
    ensures forall id: nat :: Scan(NewFile(bpc), [], bpc, id) == NewFile(bpc)
  {
  }

  /** The highest sequence number, or the lowest legal one if there is none. */
  ghost predicate Highest(order: seq<BlockIndex>, seqNumber: nat) {
    && LOWEST_SEQUENCE_NUMBER <= seqNumber && (forall k | 0 <= k < |order| :: order[k].seqNumber <= seqNumber)
    && (seqNumber == LOWEST_SEQUENCE_NUMBER || exists k :: 0 <= k < |order| && order[k].seqNumber == seqNumber)
  }

  lemma {:induction false} HighestMore(order: seq<BlockIndex>, b: BlockIndex, seqNumber: nat)
    requires Highest(order, seqNumber) && 0 <= b.seqNumber
    ensures Highest(order + [b], if b.seqNumber >= seqNumber then b.seqNumber else seqNumber)
  {
    assert (order + [b])[|order|] == b;
    if b.seqNumber < seqNumber && seqNumber != LOWEST_SEQUENCE_NUMBER {
      var k :| 0 <= k < |order| && order[k].seqNumber == seqNumber;
      assert (order + [b])[k].seqNumber == seqNumber;
    }
  }

  lemma {:induction false} HighestPermuted(a: seq<BlockIndex>, b: seq<BlockIndex>, seqNumber: nat)
    requires multiset(a) == multiset(b) && Highest(a, seqNumber)
    ensures Highest(b, seqNumber)
  {
    forall k | 0 <= k < |b| ensures b[k].seqNumber <= seqNumber {
      assert b[k] in multiset(a);
    }
    if seqNumber != LOWEST_SEQUENCE_NUMBER {
      var k :| 0 <= k < |a| && a[k].seqNumber == seqNumber;
      assert a[k] in multiset(b);
    }
  }

  /** Collects and sorts the index of the blocks to scan. */
  method SortBlocks(blocks: seq<Block>, start: nat) returns (order: seq<ScanIndex>, seqNumber: nat)
    requires start + |blocks| < INT_LIMIT && AllNear(blocks)
    ensures multiset(order) == multiset(ToScan(blocks, start)) && ByAge(order) && InRange(order, start, |blocks|)
    ensures Highest(order, seqNumber)
    ensures forall i, j | 0 <= i < j < |order| :: Ybicmp(order[i], order[j]) <= 0
  {
    hide Qsort.Preorder; hide Qsort.Sorted; hide Qsort.Permuted; hide ToScan; hide ByAge;
    var index, n;
    index, n, seqNumber := CollectBlocks(blocks, start);
    ToScanInRange(blocks, start);
    ghost var was := index[..];
    AgePreorder();
    assert was[..n] == ToScan(blocks, start);
    ComparesByAge(was, n, blocks, start);
    Qsort.Sort(index, 0, n, AgeCmp);
    ghost var now := index[..];
    SortedByAge(was, now, n, start, |blocks|, seqNumber);
    SortedByCode(was, now, n);
    order := index[..n];
    HighestPermuted(was[..n], order, seqNumber);
  }

  lemma {:induction false} ToScanAre(blocks: seq<Block>, start: nat)
    ensures forall k | 0 <= k < |ToScan(blocks, start)| :: IndexOfBlock(ToScan(blocks, start)[k], blocks, start)
  {
    hide Scannable;
    if blocks != [] {
      var n := |blocks| - 1;
      ToScanAre(blocks[..n], start);
      var s, t := ToScan(blocks[..n], start), ToScan(blocks, start);
      forall k | 0 <= k < |t| ensures IndexOfBlock(t[k], blocks, start) {
        if k < |s| { assert IndexOfBlock(s[k], blocks[..n], start); }
      }
    }
  }

  ghost predicate IndexOfBlock(b: BlockIndex, blocks: seq<Block>, start: nat) {
    var i := b.block - start;
    0 <= i < |blocks| && Scannable(blocks[i]) && b.seqNumber == blocks[i].seqNumber
  }

  /** On the blocks of the device the comparison of the source is the order of age, so sorting by either is the same. */
  lemma {:induction false} ComparesByAge(index: seq<ScanIndex>, n: nat, blocks: seq<Block>, start: nat)
    requires n <= |index| && index[..n] == ToScan(blocks, start) && AllNear(blocks)
    ensures forall i, j | 0 <= i < n && 0 <= j < n :: Near(index[i].seqNumber, index[j].seqNumber)
    ensures forall i, j | 0 <= i < n && 0 <= j < n :: Ybicmp(index[i], index[j]) == AgeCmp(index[i], index[j])
  {
    hide Ybicmp; hide AgeCmp; hide ToScan; hide Scannable; hide Near;
    ToScanAre(blocks, start);
    var s := index[..n];
    forall i, j | 0 <= i < n && 0 <= j < n
      ensures Near(index[i].seqNumber, index[j].seqNumber) && Ybicmp(index[i], index[j]) == AgeCmp(index[i], index[j])
    {
      assert IndexOfBlock(s[i], blocks, start) && IndexOfBlock(s[j], blocks, start);
      YbicmpAgeIff(index[i], index[j]);
    }
  }

  /** The index of the blocks to scan, as they come, and the highest sequence number. */
  method CollectBlocks(blocks: seq<Block>, start: nat) returns (index: array<ScanIndex>, n: nat, seqNumber: nat)
    requires start + |blocks| < INT_LIMIT
    ensures fresh(index) && n <= index.Length && index[..n] == ToScan(blocks, start)
    ensures Highest(index[..n], seqNumber)
  {
    index := new ScanIndex[|blocks|];
    n := 0;
    seqNumber := LOWEST_SEQUENCE_NUMBER;
    assert blocks[..0] == [];
    for i := 0 to |blocks|
      invariant n <= i && index[..n] == ToScan(blocks[..i], start)
      invariant Highest(index[..n], seqNumber)
    {
      assert blocks[..i + 1][..i] == blocks[..i];
      if Scannable(blocks[i]) {
        ghost var was := index[..n];
        index[n] := BlockIndex(blocks[i].seqNumber, start + i);
        assert index[..n + 1] == was + [index[n]];
        n := n + 1;
        HighestMore(was, index[n - 1], seqNumber);
        if blocks[i].seqNumber >= seqNumber {
          seqNumber := blocks[i].seqNumber;
        }
      }
    }
    assert blocks[..|blocks|] == blocks;
  }

  lemma {:induction false} SortedByAge(was: seq<ScanIndex>, now: seq<ScanIndex>, n: nat, start: nat, size: nat, top: nat)
    requires n <= |was| && Qsort.Permuted(was, now, 0, n) && Qsort.Sorted(now, 0, n, AgeCmp)
    requires InRange(was[..n], start, size) && forall k | 0 <= k < n :: was[k].seqNumber <= top
    ensures n <= |now| && ByAge(now[..n]) && InRange(now[..n], start, size) && multiset(now[..n]) == multiset(was[..n])
    ensures forall k | 0 <= k < n :: now[k].seqNumber <= top
  {
    assert was[0..n] == was[..n] && now[0..n] == now[..n];
    forall k | 0 <= k < n ensures now[k] in was[..n] {
      assert now[k] in multiset(now[..n]);
    }
  }

  lemma {:induction false} SortedByCode(was: seq<ScanIndex>, now: seq<ScanIndex>, n: nat)
    requires n <= |was| && Qsort.Permuted(was, now, 0, n) && Qsort.Sorted(now, 0, n, AgeCmp)
    requires forall i, j | 0 <= i < n && 0 <= j < n :: Near(was[i].seqNumber, was[j].seqNumber)
    ensures n <= |now| && forall i, j | 0 <= i < j < n :: Ybicmp(now[i], now[j]) <= 0
  {
    hide Ybicmp; hide AgeCmp; hide Near;
    assert was[0..n] == was[..n] && now[0..n] == now[..n];
    forall i, j | 0 <= i < j < n ensures Ybicmp(now[i], now[j]) <= 0 {
      assert now[i] in multiset(now[0..n]) && now[j] in multiset(now[0..n]);
      var k :| 0 <= k < n && was[k] == now[i];
      var l :| 0 <= l < n && was[l] == now[j];
      assert Near(was[k].seqNumber, was[l].seqNumber);
      YbicmpAgeIff(now[i], now[j]);
    }
  }
}
