/** Allocation, deletion and erasure of chunks, and the counters the device keeps about them. */
module ChunkAllocator {
  import opened FlashBlocks

  class Allocator {
    const start: nat
    const per: nat
    const reservedBlocks: nat
    const wrAttempts: nat

    var blocks: seq<BlockInfo>
    /** Pages soft-deleted in each block. */
    ghost var soft: seq<set<nat>>
    var nFree: int
    var nErased: int
    var allocBlock: int
    var allocPage: nat
    var finder: int
    var seqNumber: nat
    var blocksInCheckpt: int
    var isCheckpointed: bool
    var gcBlock: nat
    var nand: map<nat, Written>

    ghost predicate Geometry() {
      start > 0 && 0 < per <= 511 && wrAttempts > 0
    }

    /** The counters, with the free chunks off by excess. */
    ghost predicate Counts(excess: int)
      reads this
    {
      && nFree == Recount(blocks, per) + excess
      && nErased == CountIn(blocks, Empty)
      && blocksInCheckpt == CountIn(blocks, Checkpoint)
    }

    /** The device invariant while a block may be on its way to being erased. */
    ghost predicate Sound(excess: int)
      reads this
    {
      && Geometry() && AllOk(blocks, soft, per) && Counts(excess)
      && AllocOk(blocks, start, per, allocBlock, allocPage)
      && (gcBlock == 0 || (start <= gcBlock < start + |blocks| && blocks[gcBlock - start].state in {Full, Collecting}))
    }

    /** The invariant between operations. */
    ghost predicate Valid()
      reads this
    {
      Sound(0) && NoneDirty(blocks)
    }

    ghost function Used(): iset<nat>
      reads this
      requires Geometry()
    {
      UsedChunks(blocks, start, per)
    }

    ghost function Soft(): iset<nat>
      reads this
      requires Geometry()
    {
      SoftChunks(soft, start, per)
    }

    /** A device of erased blocks. */
    constructor (start: nat, per: nat, nBlocks: nat, reservedBlocks: nat, wrAttempts: nat)
      requires start > 0 && 0 < per <= 511 && wrAttempts > 0
      ensures Valid() && this.start == start && this.per == per
      ensures Used() == iset{} && Soft() == iset{} && |blocks| == nBlocks && nFree == nBlocks * per && seqNumber == 0x1000
      ensures forall j | 0 <= j < |blocks| :: blocks[j].state == Empty
      ensures fresh(this)
    {
      this.start, this.per, this.reservedBlocks, this.wrAttempts := start, per, reservedBlocks, wrAttempts;
      var b := BlockInfo(Empty, 0, 0, {}, 0, false, false, false, false, 0);
      var all := seq(nBlocks, _ => b);
      blocks, soft := all, seq(nBlocks, _ => {});
      nFree, nErased := nBlocks * per, nBlocks;
      allocBlock, allocPage, finder, seqNumber := -1, 0, 0, 0x1000;
      blocksInCheckpt, isCheckpointed, gcBlock, nand := 0, false, 0, map[];
      new;
      AllEmpty(all, b, per);
      CountNone(all, Checkpoint);
    }

    // ----- the recount

    /** yaffs_count_free_chunks. */
    method CountFreeChunks() returns (n: int)
      ensures n == Recount(blocks, per) && (Valid() ==> n == nFree)
    {
      hide FreeIn;
      n := 0;
      var i := 0;
      assert blocks[..0] == [];
      while i < |blocks|
        invariant i <= |blocks| && n == Recount(blocks[..i], per)
      {
        assert blocks[..i + 1][..i] == blocks[..i];
        n := n + FreeIn(blocks[i], per);
        i := i + 1;
      }
      assert blocks[..i] == blocks;
    }

    // ----- the run-time checks

    /** yaffs_verify_blk on block i; in reachable states it finds nothing wrong. */
    method VerifyBlk(i: nat) returns (ok: bool)
      requires i < |blocks|
      ensures ok <==> PassesCheck(blocks[i], per)
    {
      var b := blocks[i];
      var actuallyUsed := b.pagesInUse - b.softDelPages;
      ok := !(b.pagesInUse < 0 || b.pagesInUse > per || b.softDelPages < 0 || b.softDelPages > per || actuallyUsed < 0 || actuallyUsed > per);
      ok := ok && |b.bits| == b.pagesInUse;
    }

    /** yaffs_verify_blocks: every block passes, at most one is being allocated from and at most one collected, and the
        counts of erased and of checkpoint blocks are right. In reachable states, with at most block gc being collected,
        it finds nothing wrong.
     */
    method VerifyBlocks(ghost gc: int) returns (ok: bool)
      ensures ok <==> (forall i | 0 <= i < |blocks| :: PassesCheck(blocks[i], per))
                      && CountIn(blocks, Allocating) <= 1 && CountIn(blocks, Collecting) <= 1
                      && CountIn(blocks, Checkpoint) == blocksInCheckpt && CountIn(blocks, Empty) == nErased
      ensures Valid() && (forall j | 0 <= j < |blocks| && blocks[j].state == Collecting :: j == gc) ==> ok
    {
      hide AllOk; hide PassesCheck;
      ok := true;
      var allocating, collecting, checkpoint, erased := 0, 0, 0, 0;
      var i := 0;
      assert blocks[..0] == [];
      while i < |blocks|
        invariant i <= |blocks| && (ok <==> forall j | 0 <= j < i :: PassesCheck(blocks[j], per))
        invariant allocating == CountIn(blocks[..i], Allocating) && collecting == CountIn(blocks[..i], Collecting)
        invariant checkpoint == CountIn(blocks[..i], Checkpoint) && erased == CountIn(blocks[..i], Empty)
      {
        var blockOk := VerifyBlk(i);
        ok := ok && blockOk;
        assert blocks[..i + 1][..i] == blocks[..i];
        if blocks[i].state == Allocating {
          allocating := allocating + 1;
        }
        if blocks[i].state == Collecting {
          collecting := collecting + 1;
        }
        if blocks[i].state == Checkpoint {
          checkpoint := checkpoint + 1;
        }
        if blocks[i].state == Empty {
          erased := erased + 1;
        }
        i := i + 1;
      }
      assert blocks[..i] == blocks;
      ok := ok && allocating <= 1 && collecting <= 1 && blocksInCheckpt == checkpoint && nErased == erased;
      if Valid() && forall j | 0 <= j < |blocks| && blocks[j].state == Collecting :: j == gc { NothingWrong(gc); }
    }

    /** What the checks look for never happens. */
    lemma {:induction false} NothingWrong(gc: int)
      requires Valid() && forall j | 0 <= j < |blocks| && blocks[j].state == Collecting :: j == gc
      ensures forall i | 0 <= i < |blocks| :: PassesCheck(blocks[i], per)
      ensures CountIn(blocks, Allocating) <= 1 && CountIn(blocks, Collecting) <= 1
      ensures CountIn(blocks, Checkpoint) == blocksInCheckpt && CountIn(blocks, Empty) == nErased
    {
      hide AllOk;
      forall i | 0 <= i < |blocks| ensures PassesCheck(blocks[i], per) {
        AllOkAt(blocks, soft, per, i);
        BlockBounds(blocks[i], soft[i], per);
      }
      AtMostOne(blocks, Allocating, allocBlock - start);
      AtMostOne(blocks, Collecting, gc);
    }

    // ----- checkpoint blocks

    method EraseCheckptBlock(i: nat, ghost excess: int)
      requires Geometry() && AllOk(blocks, soft, per) && AllocOk(blocks, start, per, allocBlock, allocPage)
      requires nFree == Recount(blocks, per) + excess && nErased == CountIn(blocks, Empty)
      requires i < |blocks| && blocks[i].state == Checkpoint
      modifies this`blocks, this`nErased, this`nFree, this`nand
      ensures AllOk(blocks, soft, per) && AllocOk(blocks, start, per, allocBlock, allocPage)
      ensures nFree == Recount(blocks, per) + excess && nErased == CountIn(blocks, Empty)
      ensures blocks == old(blocks)[i := old(blocks[i]).(state := blocks[i].state)] && blocks[i].state in {Empty, Dead}
      ensures Used() == old(Used()) && Kept(old(nand), nand, Used()) && NothingIn(nand, start + i, per)
    {
      hide Recount; hide CountIn; hide UsedChunks; hide Erased; hide Kept; hide AllocOk; hide AllOk;
      AllOkAt(blocks, soft, per, i);
      BlockBounds(blocks[i], soft[i], per);
      var ok: bool := *;
      var b := blocks[i].(state := if ok then Empty else Dead);
      StateChange(blocks, soft, start, per, i, b, allocBlock, allocPage);
      EraseKeeps(nand, blocks, start, per, i);
      if ok {
        nErased := nErased + 1;
        nFree := nFree + per;
      }
      ErasedHolds(nand, start + i, per);
      nand := Erased(nand, start + i, per);
      blocks := blocks[i := b];
    }

    /** yaffs_checkpt_erase. */
    method CheckptErase(ghost excess: int)
      requires Sound(excess)
      modifies this`blocks, this`nErased, this`nFree, this`nand, this`blocksInCheckpt
      ensures Sound(excess) && blocksInCheckpt == 0
      ensures CheckpointsDropped(old(blocks), blocks)
      ensures Used() == old(Used()) && Kept(old(nand), nand, Used())
    {
      hide Recount; hide CountIn; hide UsedChunks; hide Kept; hide AllOk; hide AllocOk;
      KeptSelf(nand, Used());
      var i := 0;
      while i < |blocks|
        invariant i <= |blocks| == |old(blocks)|
        invariant AllOk(blocks, soft, per) && AllocOk(blocks, start, per, allocBlock, allocPage)
        invariant nFree == Recount(blocks, per) + excess && nErased == CountIn(blocks, Empty)
        invariant forall j | 0 <= j < |blocks| && (i <= j || old(blocks[j]).state != Checkpoint) :: blocks[j] == old(blocks[j])
        invariant forall j | 0 <= j < i && old(blocks[j]).state == Checkpoint ::
          blocks[j].state in {Empty, Dead} && blocks[j] == old(blocks[j]).(state := blocks[j].state)
        invariant Used() == old(Used()) && Kept(old(nand), nand, Used())
      {
        if blocks[i].state == Checkpoint {
          ghost var was := nand;
          EraseCheckptBlock(i, excess);
          KeptTrans(old(nand), was, nand, Used());
        }
        i := i + 1;
      }
      CountNone(blocks, Checkpoint);
      blocksInCheckpt := 0;
    }

    /** yaffs2_checkpt_invalidate. */
    method CheckptInvalidate(ghost excess: int)
      requires Sound(excess)
      modifies this`blocks, this`nErased, this`nFree, this`nand, this`blocksInCheckpt, this`isCheckpointed
      ensures Sound(excess) && CheckpointsDropped(old(blocks), blocks) && blocksInCheckpt == 0 && !isCheckpointed
      ensures Used() == old(Used()) && Kept(old(nand), nand, Used())
    {
      hide Recount; hide CountIn; hide UsedChunks; hide AllOk; hide AllocOk;
      KeptSelf(nand, Used());
      if isCheckpointed || blocksInCheckpt > 0 {
        isCheckpointed := false;
        CheckptErase(excess);
      } else {
        CountNone(blocks, Checkpoint);
      }
    }

    /** The accounting of a whole checkpoint save: the chosen erased blocks hold the checkpoint. */
    method CheckptTake(chosen: seq<nat>)
      requires Valid() && blocksInCheckpt == 0
      requires forall k | 0 <= k < |chosen| :: chosen[k] < |blocks| && blocks[chosen[k]].state == Empty
      requires forall k, l | 0 <= k < l < |chosen| :: chosen[k] != chosen[l]
      modifies this`blocks, this`nErased, this`nFree, this`blocksInCheckpt, this`isCheckpointed
      ensures Valid() && blocksInCheckpt == |chosen|
      ensures nErased == old(nErased) - |chosen| && nFree == old(nFree) - |chosen| * per
      ensures Used() == old(Used()) && isCheckpointed && NoNewCollecting(old(blocks), blocks)
    {
      hide Recount; hide CountIn; hide UsedChunks; hide AllOk; hide AllocOk;
      var k := 0;
      while k < |chosen|
        invariant k <= |chosen| && |blocks| == |old(blocks)| && NoNewCollecting(old(blocks), blocks)
        invariant AllOk(blocks, soft, per) && AllocOk(blocks, start, per, allocBlock, allocPage)
        invariant forall j | 0 <= j < |blocks| :: blocks[j].state != Dirty
        invariant gcBlock == 0 || (start <= gcBlock < start + |blocks| && blocks[gcBlock - start].state in {Full, Collecting})
        invariant blocksInCheckpt == k == CountIn(blocks, Checkpoint)
        invariant nFree == Recount(blocks, per) + k * per && nErased == CountIn(blocks, Empty) + k
        invariant nFree == old(nFree) && nErased == old(nErased)
        invariant forall l | k <= l < |chosen| :: chosen[l] < |blocks| && blocks[chosen[l]].state == Empty
        invariant Used() == old(Used())
      {
        var i := chosen[k];
        var b := blocks[i].(state := Checkpoint);
        AllOkAt(blocks, soft, per, i);
        BlockBounds(blocks[i], soft[i], per);
        StateChange(blocks, soft, start, per, i, b, allocBlock, allocPage);
        assert (k + 1) * per == k * per + per;
        blocks := blocks[i := b];
        blocksInCheckpt := blocksInCheckpt + 1;
        k := k + 1;
      }
      nFree := nFree - blocksInCheckpt * per;
      nErased := nErased - blocksInCheckpt;
      isCheckpointed := true;
    }

    // ----- erasing

    /** yaffs_retire_block; whatever the flash then holds in the block is not looked at again. */
    method RetireBlock(i: nat)
      requires Sound(0) && i < |blocks| && blocks[i].state == Dirty && blocks[i].bits == {}
      requires forall j | 0 <= j < |blocks| && j != i :: blocks[j].state != Dirty
      modifies this`blocks, this`nErased, this`nFree, this`nand, this`blocksInCheckpt, this`isCheckpointed
      ensures Valid() && blocks[i].state == Dead && blocks[i].bits == {} && OthersKept(old(blocks), blocks, i)
      ensures Used() == old(Used()) && Kept(old(nand), nand, Used())
    {
      hide Recount; hide CountIn; hide UsedChunks; hide AllOk; hide AllocOk; hide Kept;
      CheckptInvalidate(0);
      ghost var was := nand;
      var marked: bool := *;
      if !marked {
        nand := Erased(nand, start + i, per);
      }
      EraseKeeps(was, blocks, start, per, i);
      KeptSelf(was, Used());
      KeptTrans(old(nand), was, nand, Used());
      var b := blocks[i].(state := Dead, gcPrioritise := false, needsRetiring := false);
      AllOkAt(blocks, soft, per, i);
      BlockBounds(blocks[i], soft[i], per);
      StateChange(blocks, soft, start, per, i, b, allocBlock, allocPage);
      blocks := blocks[i := b];
    }

    /** yaffs_block_became_dirty, for a block without chunks in use. */
    method BlockBecameDirty(i: nat)
      requires Valid() && i < |blocks| && blocks[i].bits == {} && blocks[i].state in {Full, Collecting}
      modifies this`blocks, this`nErased, this`nFree, this`nand, this`blocksInCheckpt, this`isCheckpointed, this`gcBlock
      ensures Valid() && blocks[i].state in {Empty, Dead} && blocks[i].bits == {} && OthersKept(old(blocks), blocks, i)
      ensures gcBlock == if old(gcBlock) == start + i then 0 else old(gcBlock)
      ensures Used() == old(Used()) && Kept(old(nand), nand, Used()) && (blocks[i].state == Empty ==> NothingIn(nand, start + i, per))
    {
      hide Recount; hide CountIn; hide UsedChunks; hide AllOk; hide AllocOk; hide Kept; hide NothingIn; hide OthersKept; hide NoneDirty;
      KeptSelf(nand, Used());
      MarkDirty(i);
      ghost var dirty := blocks;
      var erasedOk := TryErase(i);
      StillDirty(old(blocks), dirty, blocks, i);
      ghost var was, tried := nand, blocks;
      if !erasedOk {
        nFree := nFree - per;
        RetireBlock(i);
        KeptTrans(old(nand), was, nand, Used());
      } else {
        MarkEmpty(i);
        OnlyChanged(tried, blocks, i);
      }
      OthersKeptTrans(old(blocks), tried, blocks, i);
    }

    /** The block is counted neither as free nor as erased until it is one or the other. */
    method MarkDirty(i: nat)
      requires Valid() && i < |blocks| && blocks[i].bits == {} && blocks[i].state in {Full, Collecting}
      modifies this`blocks, this`gcBlock
      ensures Sound(per) && Used() == old(Used()) && blocks == old(blocks)[i := old(blocks[i]).(state := Dirty)]
      ensures gcBlock == if old(gcBlock) == start + i then 0 else old(gcBlock)
      ensures forall j | 0 <= j < |blocks| && j != i :: blocks[j].state != Dirty
    {
      hide Recount; hide CountIn; hide UsedChunks; hide AllOk; hide AllocOk;
      AllOkAt(blocks, soft, per, i);
      BlockBounds(blocks[i], soft[i], per);
      StateChange(blocks, soft, start, per, i, blocks[i].(state := Dirty), allocBlock, allocPage);
      blocks := blocks[i := blocks[i].(state := Dirty)];
      if gcBlock == start + i {
        gcBlock := 0;
      }
    }

    method TryErase(i: nat) returns (erasedOk: bool)
      requires Sound(per) && i < |blocks| && blocks[i].state == Dirty && blocks[i].bits == {}
      modifies this`blocks, this`nErased, this`nFree, this`nand, this`blocksInCheckpt, this`isCheckpointed
      ensures Sound(per) && OthersKept(old(blocks), blocks, -1)
      ensures Used() == old(Used()) && Kept(old(nand), nand, Used()) && (erasedOk ==> NothingIn(nand, start + i, per))
    {
      hide Recount; hide CountIn; hide UsedChunks; hide AllOk; hide AllocOk; hide Kept;
      KeptSelf(nand, Used());
      erasedOk := false;
      if !blocks[i].needsRetiring {
        CheckptInvalidate(per);
        ghost var was := nand;
        EraseKeeps(nand, blocks, start, per, i);
        KeptTrans(old(nand), was, Erased(nand, start + i, per), Used());
        erasedOk := *;
        nand := Erased(nand, start + i, per);
      }
    }

    method MarkEmpty(i: nat)
      requires Sound(per) && i < |blocks| && blocks[i].state == Dirty && blocks[i].bits == {}
      requires forall j | 0 <= j < |blocks| && j != i :: blocks[j].state != Dirty
      modifies this`blocks, this`nErased
      ensures Valid() && Used() == old(Used())
      ensures blocks == old(blocks)[i := blocks[i]] && blocks[i].state == Empty && blocks[i].bits == {}
    {
      hide Recount; hide CountIn; hide UsedChunks; hide AllOk; hide AllocOk;
      AllOkAt(blocks, soft, per, i);
      BlockBounds(blocks[i], soft[i], per);
      var b := blocks[i].(state := Empty, seqNumber := 0, pagesInUse := 0, softDelPages := 0, hasShrinkHdr := false,
                          skipErasedCheck := true, gcPrioritise := false, bits := {});
      StateChange(blocks, soft, start, per, i, b, allocBlock, allocPage);
      nErased := nErased + 1;
      blocks := blocks[i := b];
    }

    // ----- deleting

    /** Block i lost a chunk, and was erased or retired if that was its last. */
    ghost predicate LostChunk(before: BlockInfo, after: BlockInfo, p: nat) {
      || (after == Dropped(before, p) && (after.bits == {} ==> before.state == Allocating || before.hasShrinkHdr))
      || (after.state in {Empty, Dead} && after.bits == {} && before.bits == {p} && before.state in {Full, Collecting} && !before.hasShrinkHdr)
    }

    /** yaffs_chunk_del; a chunk number of zero or less is ignored. */
    method ChunkDel(c: int)
      requires Valid()
      requires c > 0 ==> c in Used() && c !in Soft()
      modifies this`blocks, this`nErased, this`nFree, this`nand, this`blocksInCheckpt, this`isCheckpointed, this`gcBlock
      ensures Valid() && Used() == old(Used()) - (if c > 0 then iset{c} else iset{})
      ensures Kept(old(nand), nand, Used())
      ensures NoNewCollecting(old(blocks), blocks)
      ensures c <= 0 ==> blocks == old(blocks) && gcBlock == old(gcBlock)
      ensures c > 0 ==> var i := BlockOf(c, per) - start;
        && 0 <= i < |old(blocks)| && OthersKept(old(blocks), blocks, i)
        && LostChunk(old(blocks[i]), blocks[i], PageOf(c, per))
        && (gcBlock == old(gcBlock) || (gcBlock == 0 && old(gcBlock) == start + i && blocks[i].state in {Empty, Dead}))
    {
      hide Recount; hide CountIn; hide AllOk; hide AllocOk; hide Kept; hide ChunkOf;
      hide BlockOf; hide PageOf;
      KeptSelf(nand, Used());
      if c <= 0 {
        return;
      }
      ChunkWhole(c, per);
      var block, page := BlockOf(c, per), PageOf(c, per);
      var i := block - start;
      assert 0 <= i < |blocks| && page in blocks[i].bits && page !in soft[i] by { SoftSize(blocks, soft, per); }
      PageDropped(blocks, soft, start, per, i, page, allocBlock, allocPage);
      hide UsedChunks; hide SoftChunks;
      nFree := nFree + 1;
      blocks := blocks[i := Dropped(blocks[i], page)];
      KeptSelf(nand, Used());
      if blocks[i].pagesInUse == 0 && !blocks[i].hasShrinkHdr && blocks[i].state != Allocating {
        assert old(blocks[i]).bits == {page};
        BlockBecameDirty(i);
      }
    }

    /** yaffs_soft_del_chunk. */
    method SoftDelChunk(c: nat)
      requires Valid() && c in Used() && c !in Soft()
      modifies this`blocks, this`nFree, this`soft
      ensures Valid() && Used() == old(Used()) && Soft() == old(Soft()) + iset{c}
      ensures NoNewCollecting(old(blocks), blocks)
    {
      hide Recount; hide CountIn; hide AllOk; hide AllocOk; hide ChunkOf; hide BlockOf; hide PageOf;
      ChunkWhole(c, per);
      var i, page := BlockOf(c, per) - start, PageOf(c, per);
      assert 0 <= i < |blocks| && page in blocks[i].bits && page !in soft[i] by { SoftSize(blocks, soft, per); }
      PageSoftened(blocks, soft, start, per, i, page, allocBlock, allocPage, 1);
      hide UsedChunks; hide SoftChunks;
      blocks := blocks[i := Softened(blocks[i], 1)];
      soft := soft[i := soft[i] + {page}];
      nFree := nFree + 1;
    }

    /** The collector takes back a soft-deleted chunk: it is then deleted like any other. */
    method ReclaimSoft(c: nat)
      requires Valid() && c in Used() && c in Soft()
      modifies this`blocks, this`nFree, this`soft
      ensures Valid() && Used() == old(Used()) && Soft() == old(Soft()) - iset{c}
      ensures var i := BlockOf(c, per) - start;
        0 <= i < |blocks| && blocks == old(blocks)[i := Softened(old(blocks[i]), -1)]
    {
      hide Recount; hide CountIn; hide AllOk; hide AllocOk; hide ChunkOf; hide BlockOf; hide PageOf;
      ChunkWhole(c, per);
      var i, page := BlockOf(c, per) - start, PageOf(c, per);
      assert 0 <= i < |blocks| && page in blocks[i].bits && page in soft[i] by { SoftSize(blocks, soft, per); }
      PageSoftened(blocks, soft, start, per, i, page, allocBlock, allocPage, -1);
      hide UsedChunks; hide SoftChunks;
      nFree := nFree - 1;
      blocks := blocks[i := Softened(blocks[i], -1)];
      soft := soft[i := soft[i] - {page}];
    }

    // ----- allocating

    /** yaffs_skip_rest_of_block. */
    method SkipRestOfBlock()
      requires Valid()
      modifies this`blocks, this`allocBlock
      ensures Valid() && Used() == old(Used()) && allocBlock <= 0
      ensures |blocks| == |old(blocks)|
      ensures forall j | 0 <= j < |blocks| && old(blocks[j]).state != Allocating :: blocks[j] == old(blocks[j])
      ensures NoNewCollecting(old(blocks), blocks)
    {
      hide Recount; hide CountIn; hide AllOk; hide UsedChunks;
      if allocBlock > 0 {
        var i := allocBlock - start;
        StopAllocating(blocks, soft, start, per, i, allocPage);
        hide AllocOk;
        if blocks[i].state == Allocating {
          blocks := blocks[i := blocks[i].(state := Full)];
          allocBlock := -1;
        }
      }
    }

    /** yaffs_find_alloc_block: an erased block is found exactly when the counter says there is one. */
    method FindAllocBlock() returns (b: int)
      requires Valid() && allocBlock < 0
      modifies this`blocks, this`nErased, this`seqNumber, this`finder
      ensures b < 0 <==> old(nErased) < 1
      ensures b < 0 ==> Valid() && blocks == old(blocks)
      ensures b >= 0 ==>
        && start <= b < start + |blocks| && |blocks| == |old(blocks)| && old(blocks[b - start]).state == Empty
        && seqNumber == old(seqNumber) + 1 && nErased == old(nErased) - 1
        && blocks == old(blocks)[b - start := old(blocks[b - start]).(state := Allocating, seqNumber := seqNumber)]
    {
      hide Recount; hide CountIn; hide AllOk; hide UsedChunks; hide AllocOk;
      if nErased < 1 {
        return -1;
      }
      CountNone(blocks, Empty);
      var k := 0;
      ghost var first := if start - 1 <= finder < start + |blocks| - 1 then finder + 1 else start;
      while k < |blocks|
        invariant k <= |blocks| && blocks == old(blocks) && nErased == old(nErased) && seqNumber == old(seqNumber)
        invariant start <= first < start + |blocks|
        invariant k == 0 ==> finder == old(finder)
        invariant k > 0 ==> start <= finder < start + |blocks|
        invariant k > 0 && first <= finder ==> finder - first + 1 == k && NoneEmpty(blocks, first - start, finder - start)
        invariant k > 0 && finder < first ==>
          (start + |blocks| - first) + (finder - start + 1) == k
          && NoneEmpty(blocks, first - start, |blocks| - 1) && NoneEmpty(blocks, 0, finder - start)
      {
        finder := finder + 1;
        if finder < start || finder > start + |blocks| - 1 {
          finder := start;
        }
        var bi := blocks[finder - start];
        if bi.state == Empty {
          seqNumber := seqNumber + 1;
          blocks := blocks[finder - start := bi.(state := Allocating, seqNumber := seqNumber)];
          nErased := nErased - 1;
          return finder;
        }
        k := k + 1;
      }
      assert false;
    }

    /** yaffs_check_alloc_available; checkptBlocks are the blocks the next checkpoint will need. */
    predicate AllocAvailable(nChunks: nat, checkptBlocks: nat)
      reads this
    {
      nFree > (reservedBlocks + checkptBlocks) * per + nChunks
    }

    /** Makes sure there is a block to allocate from, if an erased one is left. */
    method EnsureAllocBlock()
      requires Valid()
      modifies this`blocks, this`nErased, this`allocBlock, this`allocPage, this`finder, this`seqNumber
      ensures Valid() && Used() == old(Used()) && |blocks| == |old(blocks)|
      ensures forall j | 0 <= j < |blocks| && old(blocks[j]).state !in {Empty, Allocating} :: blocks[j] == old(blocks[j])
      ensures NoNewCollecting(old(blocks), blocks)
      ensures allocBlock < 0 <==> old(allocBlock) < 0 && old(nErased) < 1
      ensures allocBlock < 0 ==> nErased < 1
    {
      hide Recount; hide CountIn; hide AllOk; hide UsedChunks; hide AllocOk;
      if allocBlock < 0 {
        AllocNone(blocks, start, per, allocBlock, allocPage);
        var b := FindAllocBlock();
        if b >= 0 {
          StartAllocating(old(blocks), soft, start, per, b - start, blocks[b - start], allocPage);
        } else {
          AllocNone(blocks, start, per, b, 0);
        }
        allocBlock := b;
        allocPage := 0;
      }
    }

    /** yaffs_alloc_chunk: one unused chunk is taken into use, or none. */
    method AllocChunk(useReserve: bool) returns (chunk: int)
      requires Valid()
      modifies this`blocks, this`nErased, this`nFree, this`allocBlock, this`allocPage, this`finder, this`seqNumber
      ensures Valid()
      ensures nFree == if chunk < 0 then old(nFree) else old(nFree) - 1
      ensures chunk < 0 ==> Used() == old(Used())
      ensures chunk >= 0 ==> chunk > 0 && chunk !in old(Used()) && Used() == old(Used()) + iset{chunk}
      ensures chunk >= 0 ==> var i := BlockOf(chunk, per) - start;
        && 0 <= i < |blocks| == |old(blocks)|
        && old(blocks[i]).state in {Empty, Allocating} && blocks[i].state in {Allocating, Full}
      ensures useReserve && (old(allocBlock) >= 0 || old(nErased) >= 1) ==> chunk >= 0
      ensures !useReserve && chunk >= 0 ==> old(nFree) > reservedBlocks * per + 1
      ensures useReserve && chunk < 0 ==> allocBlock < 0 && nErased < 1
      ensures |blocks| == |old(blocks)|
      ensures forall j | 0 <= j < |blocks| && old(blocks[j]).state !in {Empty, Allocating} :: blocks[j] == old(blocks[j])
      ensures NoNewCollecting(old(blocks), blocks)
    {
      hide Recount; hide CountIn; hide AllOk; hide UsedChunks; hide AllocOk; hide ChunkOf; hide BlockOf; hide PageOf;
      EnsureAllocBlock();
      var available := true;
      if !useReserve {
        var checkptBlocks: nat := *;
        available := AllocAvailable(1, checkptBlocks);
        ReserveLeft(reservedBlocks, checkptBlocks, per);
      }
      if !available || allocBlock < 0 {
        return -1;
      }
      AllocRange(blocks, start, per, allocBlock, allocPage);
      chunk := TakeNextPage();
    }

    /** The next page of the block being filled. */
    method TakeNextPage() returns (chunk: nat)
      requires Valid() && allocBlock >= start
      modifies this`blocks, this`nFree, this`allocBlock, this`allocPage
      ensures Valid() && chunk > 0 && chunk !in old(Used()) && Used() == old(Used()) + iset{chunk}
      ensures BlockOf(chunk, per) == old(allocBlock) && old(allocBlock) - start < |blocks| && nFree == old(nFree) - 1
      ensures var i := old(allocBlock) - start; blocks == old(blocks)[i := blocks[i]] && blocks[i].state in {Allocating, Full}
    {
      hide Recount; hide CountIn; hide AllOk; hide UsedChunks; hide AllocOk; hide ChunkOf; hide BlockOf; hide PageOf;
      AllocRange(blocks, start, per, allocBlock, allocPage);
      var i := allocBlock - start;
      chunk := ChunkOf(allocBlock, allocPage, per);
      PageTaken(blocks, soft, start, per, i, allocPage);
      ChunkParts(allocBlock, allocPage, per);
      ChunkPositive(allocBlock, allocPage, per);
      assert chunk !in Used() by { NotUsed(blocks, start, per, i, allocPage); }
      var b := Taken(blocks[i], allocPage, if allocPage + 1 >= per then Full else blocks[i].state);
      allocPage := allocPage + 1;
      nFree := nFree - 1;
      blocks := blocks[i := b];
      if allocPage >= per {
        allocBlock := -1;
      }
    }

    // ----- writing

    /** A change of flags of block i. */
    method SetFlags(i: nat, b: BlockInfo)
      requires Valid() && i < |blocks|
      requires b == blocks[i].(needsRetiring := b.needsRetiring, hasShrinkHdr := b.hasShrinkHdr, skipErasedCheck := b.skipErasedCheck,
                               gcPrioritise := b.gcPrioritise, errorStrikes := b.errorStrikes)
      modifies this`blocks
      ensures Valid() && blocks == old(blocks)[i := b] && Used() == old(Used())
    {
      hide Recount; hide CountIn; hide AllOk; hide UsedChunks; hide AllocOk;
      FlagChange(blocks, soft, start, per, i, b, allocBlock, allocPage);
      blocks := blocks[i := b];
    }

    /** yaffs_handle_chunk_error: a block with a fourth strike is to be retired; strikes are a three-bit count. */
    function AfterChunkError(b: BlockInfo): BlockInfo {
      if b.gcPrioritise then b
      else
        var strikes := (b.errorStrikes + 1) % 8;
        b.(gcPrioritise := true, errorStrikes := strikes, needsRetiring := b.needsRetiring || strikes > 3)
    }

    /** A chunk just allocated is given back and its block closed: yaffs_handle_chunk_wr_error, and the
        path for a chunk found not erased.
     */
    method GiveBack(chunk: nat, failed: bool, erasedOk: bool)
      requires Valid() && chunk > 0 && chunk in Used() && chunk !in Soft()
      requires var i := BlockOf(chunk, per) - start;
        0 <= i < |blocks| && blocks[i].state in {Allocating, Full} && gcBlock != start + i
      modifies this`blocks, this`nErased, this`nFree, this`nand, this`blocksInCheckpt, this`isCheckpointed, this`gcBlock, this`allocBlock
      ensures Valid() && Used() == old(Used()) - iset{chunk} && Kept(old(nand), nand, Used())
      ensures gcBlock == old(gcBlock) && ClosedExcept(old(blocks), blocks, BlockOf(chunk, per) - start)
    {
      hide Recount; hide CountIn; hide AllOk; hide UsedChunks; hide AllocOk; hide BlockOf; hide PageOf; hide Kept; hide SoftChunks;
      var i := BlockOf(chunk, per) - start;
      if failed {
        var b := AfterChunkError(blocks[i]);
        SetFlags(i, if erasedOk then b.(needsRetiring := true) else b);
      }
      ChunkDel(chunk);
      SkipRestOfBlock();
    }

    lemma SoftWithinUsed()
      requires Valid()
      ensures Soft() <= Used()
      ensures forall c | c in Used() :: c > 0
    {
      hide Recount; hide CountIn; hide SoftChunks; hide UsedChunks; hide AllOk;
      SoftIsUsed(blocks, soft, start, per);
      forall c | c in Used() ensures c > 0 {
        if c == 0 { ZeroBlock(per); }
      }
    }

    /** yaffs_write_new_chunk: the payload is in one chunk that was unused before, or nowhere; everything
        in use stays in use and keeps what it holds, whatever writes fail on the way.
     */
    method WriteNewChunk(w: Written, useReserve: bool) returns (chunk: int, ghost failures: nat)
      requires Valid()
      modifies this`blocks, this`nErased, this`nFree, this`nand, this`blocksInCheckpt, this`isCheckpointed, this`gcBlock,
               this`allocBlock, this`allocPage, this`finder, this`seqNumber
      ensures Valid() && gcBlock == old(gcBlock) && KeepsClosed(old(blocks), blocks) && NoNewCollecting(old(blocks), blocks)
      ensures Kept(old(nand), nand, old(Used()))
      ensures chunk < 0 ==> Used() == old(Used())
      ensures chunk >= 0 ==> chunk > 0 && chunk !in old(Used()) && Used() == old(Used()) + iset{chunk}
      ensures chunk >= 0 ==> chunk in nand && nand[chunk] == w.(seqNumber := seqNumber)
      ensures chunk < 0 && useReserve ==> failures > wrAttempts || (allocBlock < 0 && nErased < 1)
    {
      hide Recount; hide CountIn; hide AllOk; hide UsedChunks; hide AllocOk; hide BlockOf; hide PageOf; hide Kept; hide SoftChunks;
      KeptSelf(nand, Used());
      SoftWithinUsed();
      CheckptInvalidate(0);
      var attempts := 0;
      failures := 0;
      while attempts <= wrAttempts
        invariant failures == attempts <= wrAttempts + 1
        invariant Valid() && gcBlock == old(gcBlock) && KeepsClosed(old(blocks), blocks) && NoNewCollecting(old(blocks), blocks)
        invariant Used() == old(Used()) && Kept(old(nand), nand, Used())
      {
        ghost var nand0 := nand;
        chunk := AllocChunk(useReserve);
        if chunk < 0 {
          return;
        }
        attempts := attempts + 1;
        var written := TryWrite(chunk, w);
        KeptTrans(old(nand), nand0, nand, old(Used()));
        if written {
          return;
        }
        failures := failures + 1;
      }
      chunk := -1;
    }

    /** Whether the chunk is to be checked, and whether it then reads as erased. */
    method CheckErased(i: nat) returns (check: bool, erased: bool)
      requires Valid() && i < |blocks|
      modifies this`blocks
      ensures Valid() && Used() == old(Used())
      ensures blocks == old(blocks)[i := old(blocks[i]).(skipErasedCheck := blocks[i].skipErasedCheck)]
    {
      hide Recount; hide CountIn; hide AllOk; hide UsedChunks; hide AllocOk;
      var alwaysCheck: bool := *;
      if alwaysCheck {
        SetFlags(i, blocks[i].(skipErasedCheck := false));
      }
      check := !blocks[i].skipErasedCheck;
      erased := true;
      if check {
        erased := *;
      }
    }

    /** One attempt at the chunk just allocated. */
    method TryWrite(chunk: nat, w: Written) returns (written: bool)
      requires Valid() && chunk > 0 && chunk in Used() && chunk !in Soft()
      requires var i := BlockOf(chunk, per) - start;
        0 <= i < |blocks| && blocks[i].state in {Allocating, Full} && gcBlock != start + i
      modifies this`blocks, this`nErased, this`nFree, this`nand, this`blocksInCheckpt, this`isCheckpointed, this`gcBlock, this`allocBlock
      ensures Valid() && gcBlock == old(gcBlock) && ClosedExcept(old(blocks), blocks, BlockOf(chunk, per) - start)
      ensures Kept(old(nand), nand, old(Used()) - iset{chunk})
      ensures if written then Used() == old(Used()) && chunk in nand && nand[chunk] == w.(seqNumber := seqNumber)
              else Used() == old(Used()) - iset{chunk}
    {
      hide Recount; hide CountIn; hide AllOk; hide UsedChunks; hide AllocOk; hide BlockOf; hide PageOf; hide SoftChunks; hide Kept; hide ClosedExcept;
      var i := BlockOf(chunk, per) - start;
      KeptAfterWrite(nand, nand, chunk, Used());
      var check, erased := CheckErased(i);
      ClosedExceptUpdate(old(blocks), i, blocks[i]);
      ghost var checked := blocks;
      if !erased {
        GiveBack(chunk, false, false);
        ClosedExceptTrans(old(blocks), checked, blocks, i);
        return false;
      }
      written := *;
      nand := if written then nand[chunk := w.(seqNumber := seqNumber)] else nand - {chunk};
      KeptAfterWrite(old(nand), nand, chunk, Used());
      if !written {
        ghost var was := nand;
        GiveBack(chunk, true, check);
        KeptTrans(old(nand), was, nand, Used());
        ClosedExceptTrans(old(blocks), checked, blocks, i);
        return;
      }
      ClosedExceptUpdate(blocks, i, blocks[i].(skipErasedCheck := true));
      SetFlags(i, blocks[i].(skipErasedCheck := true));
      ClosedExceptTrans(old(blocks), checked, blocks, i);
    }

    // ----- collecting

    /** The collector starts on a full block. */
    method BeginCollect(i: nat)
      requires Valid() && i < |blocks| && blocks[i].state == Full
      modifies this`blocks
      ensures Valid() && blocks == old(blocks)[i := old(blocks[i]).(state := Collecting, hasShrinkHdr := false)]
      ensures Used() == old(Used())
    {
      hide Recount; hide CountIn; hide AllOk; hide UsedChunks; hide AllocOk;
      var b := blocks[i].(state := Collecting, hasShrinkHdr := false);
      assert {Full, Collecting} == {Collecting, Full};
      FlagChange(blocks, soft, start, per, i, b, allocBlock, allocPage);
      blocks := blocks[i := b];
    }

    method EndCollect(i: nat)
      requires Valid() && i < |blocks| && blocks[i].state == Collecting
      modifies this`blocks
      ensures Valid() && blocks == old(blocks)[i := old(blocks[i]).(state := Full)]
      ensures Used() == old(Used())
    {
      hide Recount; hide CountIn; hide AllOk; hide UsedChunks; hide AllocOk;
      var b := blocks[i].(state := Full);
      FlagChange(blocks, soft, start, per, i, b, allocBlock, allocPage);
      blocks := blocks[i := b];
    }

    /** The collector has chosen a block: full ones only. */
    method ChooseGcBlock(i: nat)
      requires Valid() && i < |blocks| && blocks[i].state == Full
      modifies this`gcBlock
      ensures Valid() && gcBlock == start + i
    {
      hide Recount; hide CountIn; hide AllOk; hide UsedChunks; hide AllocOk;
      gcBlock := start + i;
    }

    method ForgetGcBlock()
      requires Valid()
      modifies this`gcBlock
      ensures Valid() && gcBlock == 0
    {
      hide Recount; hide CountIn; hide AllOk; hide UsedChunks; hide AllocOk;
      gcBlock := 0;
    }
  }

  lemma ZeroBlock(per: nat)
    requires per > 0
    ensures 0 / per == 0
  {
  }

  ghost predicate NoneEmpty(blocks: seq<BlockInfo>, lo: int, hi: int) {
    forall i | 0 <= i < |blocks| && lo <= i <= hi :: blocks[i].state != Empty
  }

  lemma AllocNone(blocks: seq<BlockInfo>, start: nat, per: nat, b: int, page: nat)
    requires b < 0
    ensures AllocOk(blocks, start, per, b, page) <==> AllocOk(blocks, start, per, -1, 0)
    ensures AllocOk(blocks, start, per, b, page) <==> AllocOk(blocks, start, per, -1, page)
  {
  }

  lemma AllocRange(blocks: seq<BlockInfo>, start: nat, per: nat, b: int, page: nat)
    requires b >= 0 && AllocOk(blocks, start, per, b, page)
    ensures start <= b < start + |blocks| && blocks[b - start].state == Allocating && page < per
  {
  }

  lemma NotUsed(blocks: seq<BlockInfo>, start: nat, per: nat, i: nat, p: nat)
    requires i < |blocks| && p < per && p !in blocks[i].bits
    ensures ChunkOf(start + i, p, per) !in UsedChunks(blocks, start, per)
  {
    hide ChunkOf; hide BlockOf; hide PageOf;
    ChunkParts(start + i, p, per);
  }

  lemma SoftSize(blocks: seq<BlockInfo>, soft: seq<set<nat>>, per: nat)
    requires AllOk(blocks, soft, per)
    ensures |soft| == |blocks|
  {
  }

  lemma AllOkAt(blocks: seq<BlockInfo>, soft: seq<set<nat>>, per: nat, i: nat)
    requires AllOk(blocks, soft, per) && i < |blocks|
    ensures i < |soft| && BlockOk(blocks[i], soft[i], per)
  {
  }

  lemma KeptSelf(nand: map<nat, Written>, used: iset<nat>)
    ensures Kept(nand, nand, used)
  {
  }

  lemma {:induction false} AllEmpty(blocks: seq<BlockInfo>, b: BlockInfo, per: nat)
    requires forall i | 0 <= i < |blocks| :: blocks[i] == b
    requires b.state == Empty && b.pagesInUse == 0 && b.softDelPages == 0
    ensures Recount(blocks, per) == |blocks| * per && CountIn(blocks, Empty) == |blocks|
  {
    if blocks != [] {
      AllEmpty(blocks[..|blocks| - 1], b, per);
      assert |blocks| * per == (|blocks| - 1) * per + per;
    }
  }

  lemma ReserveLeft(reserved: nat, checkpt: nat, per: nat)
    ensures (reserved + checkpt) * per >= reserved * per
  {
  }

  /** What yaffs_verify_blk asks of a block. */
  ghost predicate PassesCheck(b: BlockInfo, per: nat) {
    && 0 <= b.pagesInUse <= per && 0 <= b.softDelPages <= per && 0 <= b.pagesInUse - b.softDelPages <= per
    && |b.bits| == b.pagesInUse
  }

  /** A block with three strikes or more is to be retired at its next error, one with fewer is not, nor one whose three-bit count
      starts again; an error in a block that is already to be collected first changes nothing.
   */
  lemma StruckOut(dev: Allocator, b: BlockInfo)
    requires 0 <= b.errorStrikes <= 7
    ensures b.gcPrioritise ==> dev.AfterChunkError(b) == b
    ensures !b.gcPrioritise ==>
      dev.AfterChunkError(b) == b.(gcPrioritise := true, errorStrikes := if b.errorStrikes == 7 then 0 else b.errorStrikes + 1,
                                   needsRetiring := b.needsRetiring || 3 <= b.errorStrikes <= 6)
  {
  }
}
