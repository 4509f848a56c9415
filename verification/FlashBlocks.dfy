/** Blocks of the flash device as values: their states, the redundant counts kept about them, and how
    a change of one block changes the counts.
 */
module FlashBlocks {
  import Bits

  /** YAFFS_BLOCK_STATE_... as they occur on a mounted device. */
  datatype BlockState = Empty | Allocating | Full | Dirty | Checkpoint | Collecting | Dead

  /** struct yaffs_block_info with the block's chunk bits; the two counts are ten-bit signed fields. */
  datatype BlockInfo = BlockInfo(
    state: BlockState, pagesInUse: int, softDelPages: int, bits: set<nat>, seqNumber: nat,
    needsRetiring: bool, hasShrinkHdr: bool, skipErasedCheck: bool, gcPrioritise: bool, errorStrikes: nat)

  /** What was written to a chunk: its tags and its payload. */
  datatype Payload = Data(bytes: seq<int>) | Header(size: nat, isShrink: bool, shadows: nat, rest: seq<int>)
  datatype Written = Written(objId: nat, chunkId: nat, nBytes: nat, serial: nat, seqNumber: nat, payload: Payload)

  /** Assignment to a ten-bit signed field, for values at most one step outside it. */
  function Field10(x: int): int {
    if x > 511 then x - 1024 else if x < -512 then x + 1024 else x
  }

  /** A block of 511 pages can count them all; the next page makes the count negative. */
  lemma TenBits()
    ensures Field10(510 + 1) == 511 && Field10(511 + 1) == -512 && Field10(-511 - 1) == -512 && Field10(-512 - 1) == 511
  {
  }

  // ----- chunk numbers

  function ChunkOf(b: nat, p: nat, per: nat): nat { b * per + p }

  function BlockOf(c: nat, per: nat): nat
    requires per > 0
  {
    c / per
  }

  function PageOf(c: nat, per: nat): nat
    requires per > 0
  {
    c % per
  }

  lemma ChunkParts(b: nat, p: nat, per: nat)
    requires p < per
    ensures BlockOf(ChunkOf(b, p, per), per) == b && PageOf(ChunkOf(b, p, per), per) == p
  {
    Bits.DivModUnique(b * per + p, b, p, per);
  }

  lemma ChunkWhole(c: nat, per: nat)
    requires per > 0
    ensures ChunkOf(BlockOf(c, per), PageOf(c, per), per) == c && PageOf(c, per) < per
  {
  }

  lemma ChunkPositive(b: nat, p: nat, per: nat)
    requires b > 0 && per > 0
    ensures ChunkOf(b, p, per) > 0
  {
  }

  // ----- the counts

  /** What a block adds to yaffs_count_free_chunks. */
  function FreeIn(b: BlockInfo, per: nat): int {
    if b.state in {Empty, Allocating, Collecting, Full} then per - b.pagesInUse + b.softDelPages else 0
  }

  ghost function Recount(blocks: seq<BlockInfo>, per: nat): int {
    if blocks == [] then 0 else Recount(blocks[..|blocks| - 1], per) + FreeIn(blocks[|blocks| - 1], per)
  }

  ghost function CountIn(blocks: seq<BlockInfo>, state: BlockState): nat {
    if blocks == [] then 0
    else CountIn(blocks[..|blocks| - 1], state) + (if blocks[|blocks| - 1].state == state then 1 else 0)
  }

  lemma {:induction false} RecountUpdate(blocks: seq<BlockInfo>, i: nat, b: BlockInfo, per: nat)
    requires i < |blocks|
    ensures Recount(blocks[i := b], per) == Recount(blocks, per) - FreeIn(blocks[i], per) + FreeIn(b, per)
  {
    hide FreeIn;
    var n := |blocks| - 1;
    if i == n {
      assert blocks[i := b][..n] == blocks[..n];
    } else {
      assert blocks[i := b][..n] == blocks[..n][i := b];
      RecountUpdate(blocks[..n], i, b, per);
    }
  }

  lemma {:induction false} CountUpdate(blocks: seq<BlockInfo>, i: nat, b: BlockInfo, state: BlockState)
    requires i < |blocks|
    ensures CountIn(blocks[i := b], state)
         == CountIn(blocks, state) - (if blocks[i].state == state then 1 else 0) + (if b.state == state then 1 else 0)
  {
    var n := |blocks| - 1;
    if i == n {
      assert blocks[i := b][..n] == blocks[..n];
    } else {
      assert blocks[i := b][..n] == blocks[..n][i := b];
      CountUpdate(blocks[..n], i, b, state);
    }
  }

  lemma {:induction false} CountNone(blocks: seq<BlockInfo>, state: BlockState)
    ensures CountIn(blocks, state) == 0 <==> forall i | 0 <= i < |blocks| :: blocks[i].state != state
  {
    if blocks != [] {
      var n := |blocks| - 1;
      CountNone(blocks[..n], state);
      if CountIn(blocks, state) == 0 {
        forall i | 0 <= i < |blocks| ensures blocks[i].state != state {
          assert i < n ==> blocks[..n][i] == blocks[i];
        }
      }
    }
  }

  // ----- sets of pages

  lemma {:induction false} PagesBound(s: set<nat>, per: nat)
    requires forall p | p in s :: p < per
    ensures |s| <= per
  {
    if per > 0 {
      PagesBound(s - {per - 1}, per - 1);
      assert s <= s - {per - 1} + {per - 1};
      Smaller(s, s - {per - 1} + {per - 1});
    } else {
      assert s == {};
    }
  }

  lemma {:induction false} Smaller<T>(a: set<T>, b: set<T>)
    requires a <= b
    ensures |a| <= |b|
    decreases |a|
  {
    if a != {} {
      var x :| x in a;
      Smaller(a - {x}, b - {x});
    }
  }

  // ----- one block

  /** pages_in_use counts the chunk bits, soft_del_pages the soft-deleted chunks among them, and only
      blocks that hold or receive data have chunks in use.
   */
  ghost predicate BlockOk(b: BlockInfo, soft: set<nat>, per: nat) {
    && b.pagesInUse == |b.bits| && (forall p | p in b.bits :: p < per)
    && soft <= b.bits && b.softDelPages == |soft|
    && (b.bits != {} ==> b.state in {Allocating, Full, Collecting})
  }

  ghost predicate AllOk(blocks: seq<BlockInfo>, soft: seq<set<nat>>, per: nat) {
    && |soft| == |blocks|
    && forall i | 0 <= i < |blocks| :: BlockOk(blocks[i], soft[i], per)
  }

  lemma BlockBounds(b: BlockInfo, soft: set<nat>, per: nat)
    requires BlockOk(b, soft, per)
    ensures 0 <= b.softDelPages <= b.pagesInUse <= per
    ensures b.bits == {} <==> b.pagesInUse == 0
    ensures b.bits == {} ==> b.softDelPages == 0 && soft == {}
  {
    PagesBound(b.bits, per);
    Smaller(soft, b.bits);
  }

  lemma TakePage(b: BlockInfo, soft: set<nat>, per: nat, p: nat)
    requires BlockOk(b, soft, per) && p < per <= 511 && p !in b.bits && b.state in {Allocating, Full, Collecting}
    ensures var n := b.(bits := b.bits + {p}, pagesInUse := Field10(b.pagesInUse + 1)); BlockOk(n, soft, per) && n.pagesInUse == b.pagesInUse + 1
  {
    PagesBound(b.bits + {p}, per);
  }

  lemma DropPage(b: BlockInfo, soft: set<nat>, per: nat, p: nat)
    requires BlockOk(b, soft, per) && p in b.bits && p !in soft && per <= 511
    ensures var n := b.(bits := b.bits - {p}, pagesInUse := Field10(b.pagesInUse - 1)); BlockOk(n, soft, per) && n.pagesInUse == b.pagesInUse - 1
  {
    BlockBounds(b, soft, per);
  }

  lemma SoftenPage(b: BlockInfo, soft: set<nat>, per: nat, p: nat)
    requires BlockOk(b, soft, per) && p in b.bits && p !in soft && per <= 511
    ensures var n := b.(softDelPages := Field10(b.softDelPages + 1)); BlockOk(n, soft + {p}, per) && n.softDelPages == b.softDelPages + 1
  {
    BlockBounds(b, soft, per);
    Smaller(soft + {p}, b.bits);
  }

  lemma UnsoftenPage(b: BlockInfo, soft: set<nat>, per: nat, p: nat)
    requires BlockOk(b, soft, per) && p in soft && per <= 511
    ensures var n := b.(softDelPages := Field10(b.softDelPages - 1)); BlockOk(n, soft - {p}, per) && n.softDelPages == b.softDelPages - 1
  {
    BlockBounds(b, soft, per);
  }

  // ----- chunks in use

  predicate InUse(blocks: seq<BlockInfo>, start: nat, per: nat, c: nat)
    requires per > 0
  {
    var b := BlockOf(c, per);
    start <= b < start + |blocks| && PageOf(c, per) in blocks[b - start].bits
  }

  ghost predicate IsSoft(soft: seq<set<nat>>, start: nat, per: nat, c: nat)
    requires per > 0
  {
    var b := BlockOf(c, per);
    start <= b < start + |soft| && PageOf(c, per) in soft[b - start]
  }

  /** Chunk c holds the same in both. */
  predicate Same(m: map<nat, Written>, n: map<nat, Written>, c: nat) {
    (c in m <==> c in n) && (c in m ==> m[c] == n[c])
  }

  /** What the NAND holds after block b was erased. */
  function Erased(nand: map<nat, Written>, b: nat, per: nat): map<nat, Written>
    requires per > 0
  {
    map c | c in nand && BlockOf(c, per) != b :: nand[c]
  }

  /** No chunk of block b is written. */
  ghost predicate NothingIn(nand: map<nat, Written>, b: nat, per: nat)
    requires per > 0
  {
    forall c | c in nand :: BlockOf(c, per) != b
  }

  lemma ErasedHolds(nand: map<nat, Written>, b: nat, per: nat)
    requires per > 0
    ensures NothingIn(Erased(nand, b, per), b, per)
  {
  }

  ghost function UsedChunks(blocks: seq<BlockInfo>, start: nat, per: nat): iset<nat>
    requires per > 0
  {
    iset c: nat | InUse(blocks, start, per, c)
  }

  ghost function SoftChunks(soft: seq<set<nat>>, start: nat, per: nat): iset<nat>
    requires per > 0
  {
    iset c: nat | IsSoft(soft, start, per, c)
  }

  lemma SplitEqual(c: nat, b: nat, p: nat, per: nat)
    requires p < per
    ensures c == ChunkOf(b, p, per) <==> BlockOf(c, per) == b && PageOf(c, per) == p
  {
    ChunkParts(b, p, per);
    ChunkWhole(c, per);
  }

  lemma {:induction false} UsedUpdate(blocks: seq<BlockInfo>, start: nat, per: nat, i: nat, b: BlockInfo, p: nat)
    requires i < |blocks| && p < per
    ensures b.bits == blocks[i].bits ==> UsedChunks(blocks[i := b], start, per) == UsedChunks(blocks, start, per)
    ensures b.bits == blocks[i].bits + {p} ==>
              UsedChunks(blocks[i := b], start, per) == UsedChunks(blocks, start, per) + iset{ChunkOf(start + i, p, per)}
    ensures b.bits == blocks[i].bits - {p} ==>
              UsedChunks(blocks[i := b], start, per) == UsedChunks(blocks, start, per) - iset{ChunkOf(start + i, p, per)}
  {
    hide ChunkOf; hide BlockOf; hide PageOf;
    forall c: nat ensures c == ChunkOf(start + i, p, per) <==> BlockOf(c, per) == start + i && PageOf(c, per) == p {
      SplitEqual(c, start + i, p, per);
    }
  }

  lemma {:induction false} SoftUpdate(soft: seq<set<nat>>, start: nat, per: nat, i: nat, p: nat)
    requires i < |soft| && p < per
    ensures SoftChunks(soft[i := soft[i] + {p}], start, per) == SoftChunks(soft, start, per) + iset{ChunkOf(start + i, p, per)}
    ensures SoftChunks(soft[i := soft[i] - {p}], start, per) == SoftChunks(soft, start, per) - iset{ChunkOf(start + i, p, per)}
  {
    hide ChunkOf; hide BlockOf; hide PageOf;
    forall c: nat ensures c == ChunkOf(start + i, p, per) <==> BlockOf(c, per) == start + i && PageOf(c, per) == p {
      SplitEqual(c, start + i, p, per);
    }
  }

  /** Every chunk in use holds what it held. */
  ghost predicate Kept(before: map<nat, Written>, after: map<nat, Written>, used: iset<nat>) {
    forall c: nat | c in used :: Same(before, after, c)
  }

  lemma KeptTrans(a: map<nat, Written>, b: map<nat, Written>, c: map<nat, Written>, used: iset<nat>)
    requires Kept(a, b, used) && Kept(b, c, used)
    ensures Kept(a, c, used)
  {
    forall x: nat | x in used ensures Same(a, c, x) {
      assert Same(a, b, x) && Same(b, c, x);
    }
  }

  /** Erasing a block without chunks in use loses nothing that is in use. */
  lemma {:induction false} EraseKeeps(nand: map<nat, Written>, blocks: seq<BlockInfo>, start: nat, per: nat, i: nat)
    requires per > 0 && i < |blocks| && blocks[i].bits == {}
    ensures Kept(nand, Erased(nand, start + i, per), UsedChunks(blocks, start, per))
  {
    hide BlockOf; hide PageOf;
  }

  /** Checkpoint blocks were erased or retired; nothing else changed. */
  ghost predicate CheckpointsDropped(before: seq<BlockInfo>, after: seq<BlockInfo>) {
    && |after| == |before|
    && (forall j | 0 <= j < |before| && before[j].state != Checkpoint :: after[j] == before[j])
    && (forall j | 0 <= j < |before| && before[j].state == Checkpoint ::
          after[j].state in {Empty, Dead} && after[j] == before[j].(state := after[j].state))
  }

  ghost predicate Below(bits: set<nat>, page: nat) {
    forall p | p in bits :: p < page
  }

  /** At most one block is being allocated from, and its pages from page on are unused. */
  ghost predicate AllocOk(blocks: seq<BlockInfo>, start: nat, per: nat, block: int, page: nat) {
    if block < 0 then forall i | 0 <= i < |blocks| :: blocks[i].state != Allocating
    else
      && start <= block < start + |blocks| && blocks[block - start].state == Allocating && page < per
      && Below(blocks[block - start].bits, page)
      && forall i | 0 <= i < |blocks| && blocks[i].state == Allocating :: i == block - start
  }

  /** A block without chunks in use moves between states other than Allocating. */
  lemma {:induction false} StateChange(blocks: seq<BlockInfo>, soft: seq<set<nat>>, start: nat, per: nat, i: nat, b: BlockInfo,
                                       allocBlock: int, allocPage: nat)
    requires per > 0 && AllOk(blocks, soft, per) && AllocOk(blocks, start, per, allocBlock, allocPage)
    requires i < |blocks| && blocks[i].bits == {} && blocks[i].state != Allocating && b.state != Allocating
    requires b.bits == {} && b.pagesInUse == 0 && b.softDelPages == 0
    ensures var after := blocks[i := b];
      && AllOk(after, soft, per) && AllocOk(after, start, per, allocBlock, allocPage)
      && UsedChunks(after, start, per) == UsedChunks(blocks, start, per)
      && Recount(after, per) == Recount(blocks, per) + Worth(b.state, per) - Worth(blocks[i].state, per)
      && CountIn(after, Empty) == CountIn(blocks, Empty) - (if blocks[i].state == Empty then 1 else 0) + (if b.state == Empty then 1 else 0)
      && CountIn(after, Checkpoint)
         == CountIn(blocks, Checkpoint) - (if blocks[i].state == Checkpoint then 1 else 0) + (if b.state == Checkpoint then 1 else 0)
  {
    hide Recount; hide CountIn; hide UsedChunks;
    BlockBounds(blocks[i], soft[i], per);
    RecountUpdate(blocks, i, b, per);
    CountUpdate(blocks, i, b, Empty);
    CountUpdate(blocks, i, b, Checkpoint);
    UsedUpdate(blocks, start, per, i, b, 0);
  }

  /** The free chunks of an unused block. */
  function Worth(s: BlockState, per: nat): nat {
    if s in {Empty, Allocating, Collecting, Full} then per else 0
  }

  /** Only block i changed, apart from checkpoint blocks. */
  ghost predicate OthersKept(before: seq<BlockInfo>, after: seq<BlockInfo>, i: int) {
    |after| == |before| && forall j | 0 <= j < |before| && j != i :: 
      after[j] == before[j] || (before[j].state == Checkpoint && after[j].state in {Checkpoint, Empty, Dead})
  }

  lemma OthersKeptTrans(a: seq<BlockInfo>, b: seq<BlockInfo>, c: seq<BlockInfo>, i: int)
    requires OthersKept(a, b, i) && OthersKept(b, c, i)
    ensures OthersKept(a, c, i)
  {
  }

  lemma OnlyChanged(a: seq<BlockInfo>, b: seq<BlockInfo>, i: nat)
    requires i < |a| && |b| == |a| && b == a[i := b[i]]
    ensures OthersKept(a, b, i)
  {
  }

  /** A block that is dirty stays so while checkpoint blocks are erased, and is the only one. */
  lemma StillDirty(a: seq<BlockInfo>, b: seq<BlockInfo>, c: seq<BlockInfo>, i: nat)
    requires i < |a| && b == a[i := a[i].(state := Dirty)] && OthersKept(b, c, -1) && NoneDirty(a)
    ensures OthersKept(a, c, i) && c[i] == b[i] && forall j | 0 <= j < |c| && j != i :: c[j].state != Dirty
  {
  }

  ghost predicate NoneDirty(blocks: seq<BlockInfo>) {
    forall i | 0 <= i < |blocks| :: blocks[i].state != Dirty
  }

  /** A block in which page p was taken into use and that may now be full. */
  function Taken(b: BlockInfo, p: nat, state: BlockState): BlockInfo {
    b.(bits := b.bits + {p}, pagesInUse := Field10(b.pagesInUse + 1), state := state)
  }

  function Dropped(b: BlockInfo, p: nat): BlockInfo {
    b.(bits := b.bits - {p}, pagesInUse := Field10(b.pagesInUse - 1))
  }

  lemma {:induction false} PageTaken(blocks: seq<BlockInfo>, soft: seq<set<nat>>, start: nat, per: nat, i: nat, page: nat)
    requires 0 < per <= 511 && AllOk(blocks, soft, per) && i < |blocks| && AllocOk(blocks, start, per, start + i, page)
    ensures page !in blocks[i].bits && page < per
    ensures forall s | s in {Allocating, Full} ::
      var after := blocks[i := Taken(blocks[i], page, s)];
      && AllOk(after, soft, per)
      && Recount(after, per) == Recount(blocks, per) - 1
      && CountIn(after, Empty) == CountIn(blocks, Empty) && CountIn(after, Checkpoint) == CountIn(blocks, Checkpoint)
      && UsedChunks(after, start, per) == UsedChunks(blocks, start, per) + iset{ChunkOf(start + i, page, per)}
    ensures AllocOk(blocks[i := Taken(blocks[i], page, Full)], start, per, -1, page + 1)
    ensures page + 1 < per ==> AllocOk(blocks[i := Taken(blocks[i], page, Allocating)], start, per, start + i, page + 1)
  {
    hide Recount; hide CountIn; hide UsedChunks; hide ChunkOf;
    TakePage(blocks[i], soft[i], per, page);
    forall s | s in {Allocating, Full}
      ensures var after := blocks[i := Taken(blocks[i], page, s)];
        && AllOk(after, soft, per)
        && Recount(after, per) == Recount(blocks, per) - 1
        && CountIn(after, Empty) == CountIn(blocks, Empty) && CountIn(after, Checkpoint) == CountIn(blocks, Checkpoint)
        && UsedChunks(after, start, per) == UsedChunks(blocks, start, per) + iset{ChunkOf(start + i, page, per)}
    {
      var b := Taken(blocks[i], page, s);
      RecountUpdate(blocks, i, b, per);
      CountUpdate(blocks, i, b, Empty);
      CountUpdate(blocks, i, b, Checkpoint);
      UsedUpdate(blocks, start, per, i, b, page);
    }
  }

  lemma {:induction false} PageDropped(blocks: seq<BlockInfo>, soft: seq<set<nat>>, start: nat, per: nat, i: nat, p: nat,
                                       allocBlock: int, allocPage: nat)
    requires 0 < per <= 511 && AllOk(blocks, soft, per) && AllocOk(blocks, start, per, allocBlock, allocPage)
    requires i < |blocks| && p in blocks[i].bits && p !in soft[i]
    ensures var after := blocks[i := Dropped(blocks[i], p)];
      && AllOk(after, soft, per) && AllocOk(after, start, per, allocBlock, allocPage)
      && Recount(after, per) == Recount(blocks, per) + 1
      && CountIn(after, Empty) == CountIn(blocks, Empty) && CountIn(after, Checkpoint) == CountIn(blocks, Checkpoint)
      && UsedChunks(after, start, per) == UsedChunks(blocks, start, per) - iset{ChunkOf(start + i, p, per)}
      && (after[i].bits == {} <==> after[i].pagesInUse == 0) && (after[i].bits == {} ==> after[i].softDelPages == 0)
      && blocks[i].state in {Allocating, Full, Collecting}
  {
    hide Recount; hide CountIn; hide UsedChunks; hide ChunkOf;
    var b := Dropped(blocks[i], p);
    DropPage(blocks[i], soft[i], per, p);
    BlockBounds(b, soft[i], per);
    RecountUpdate(blocks, i, b, per);
    CountUpdate(blocks, i, b, Empty);
    CountUpdate(blocks, i, b, Checkpoint);
    UsedUpdate(blocks, start, per, i, b, p);
  }

  function Softened(b: BlockInfo, d: int): BlockInfo { b.(softDelPages := Field10(b.softDelPages + d)) }

  lemma {:induction false} PageSoftened(blocks: seq<BlockInfo>, soft: seq<set<nat>>, start: nat, per: nat, i: nat, p: nat,
                                        allocBlock: int, allocPage: nat, d: int)
    requires 0 < per <= 511 && AllOk(blocks, soft, per) && AllocOk(blocks, start, per, allocBlock, allocPage)
    requires i < |blocks| && p in blocks[i].bits
    requires (d == 1 && p !in soft[i]) || (d == -1 && p in soft[i])
    ensures p < per
    ensures var after := blocks[i := Softened(blocks[i], d)];
            var softer := soft[i := if d == 1 then soft[i] + {p} else soft[i] - {p}];
      && AllOk(after, softer, per) && AllocOk(after, start, per, allocBlock, allocPage)
      && Recount(after, per) == Recount(blocks, per) + d
      && CountIn(after, Empty) == CountIn(blocks, Empty) && CountIn(after, Checkpoint) == CountIn(blocks, Checkpoint)
      && UsedChunks(after, start, per) == UsedChunks(blocks, start, per)
      && SoftChunks(softer, start, per) == (if d == 1 then SoftChunks(soft, start, per) + iset{ChunkOf(start + i, p, per)}
                                             else SoftChunks(soft, start, per) - iset{ChunkOf(start + i, p, per)})
  {
    hide Recount; hide CountIn; hide UsedChunks; hide ChunkOf; hide SoftChunks;
    var b := Softened(blocks[i], d);
    if d == 1 { SoftenPage(blocks[i], soft[i], per, p); } else { UnsoftenPage(blocks[i], soft[i], per, p); }
    RecountUpdate(blocks, i, b, per);
    CountUpdate(blocks, i, b, Empty);
    CountUpdate(blocks, i, b, Checkpoint);
    UsedUpdate(blocks, start, per, i, b, p);
    SoftUpdate(soft, start, per, i, p);
  }

  /** A change that no count looks at. */
  lemma {:induction false} FlagChange(blocks: seq<BlockInfo>, soft: seq<set<nat>>, start: nat, per: nat, i: nat, b: BlockInfo,
                                      allocBlock: int, allocPage: nat)
    requires per > 0 && AllOk(blocks, soft, per) && AllocOk(blocks, start, per, allocBlock, allocPage) && i < |blocks|
    requires b.bits == blocks[i].bits && b.pagesInUse == blocks[i].pagesInUse && b.softDelPages == blocks[i].softDelPages
    requires b.state == blocks[i].state || {b.state, blocks[i].state} == {Full, Collecting}
    ensures var after := blocks[i := b];
      && AllOk(after, soft, per) && AllocOk(after, start, per, allocBlock, allocPage)
      && Recount(after, per) == Recount(blocks, per)
      && CountIn(after, Empty) == CountIn(blocks, Empty) && CountIn(after, Checkpoint) == CountIn(blocks, Checkpoint)
      && UsedChunks(after, start, per) == UsedChunks(blocks, start, per)
  {
    hide Recount; hide CountIn; hide UsedChunks;
    StatesOfPair(b.state, blocks[i].state);
    RecountUpdate(blocks, i, b, per);
    CountUpdate(blocks, i, b, Empty);
    CountUpdate(blocks, i, b, Checkpoint);
    UsedUpdate(blocks, start, per, i, b, 0);
  }

  lemma StatesOfPair(a: BlockState, b: BlockState)
    ensures {a, b} == {Full, Collecting} ==> a in {Full, Collecting} && b in {Full, Collecting}
  {
    assert a in {a, b} && b in {a, b};
  }

  lemma {:induction false} StartAllocating(blocks: seq<BlockInfo>, soft: seq<set<nat>>, start: nat, per: nat, i: nat, b: BlockInfo, page: nat)
    requires per > 0 && AllOk(blocks, soft, per) && AllocOk(blocks, start, per, -1, page) && i < |blocks|
    requires blocks[i].state == Empty && b == blocks[i].(state := Allocating, seqNumber := b.seqNumber)
    ensures var after := blocks[i := b];
      && AllOk(after, soft, per) && AllocOk(after, start, per, start + i, 0)
      && Recount(after, per) == Recount(blocks, per)
      && CountIn(after, Empty) == CountIn(blocks, Empty) - 1 && CountIn(after, Checkpoint) == CountIn(blocks, Checkpoint)
      && UsedChunks(after, start, per) == UsedChunks(blocks, start, per)
  {
    hide Recount; hide CountIn; hide UsedChunks;
    BlockBounds(blocks[i], soft[i], per);
    RecountUpdate(blocks, i, b, per);
    CountUpdate(blocks, i, b, Empty);
    CountUpdate(blocks, i, b, Checkpoint);
    UsedUpdate(blocks, start, per, i, b, 0);
  }

  /** The block being filled is closed early. */
  lemma {:induction false} StopAllocating(blocks: seq<BlockInfo>, soft: seq<set<nat>>, start: nat, per: nat, i: nat, page: nat)
    requires per > 0 && AllOk(blocks, soft, per) && i < |blocks| && AllocOk(blocks, start, per, start + i, page)
    ensures var after := blocks[i := blocks[i].(state := Full)];
      && AllOk(after, soft, per) && AllocOk(after, start, per, -1, page)
      && Recount(after, per) == Recount(blocks, per)
      && CountIn(after, Empty) == CountIn(blocks, Empty) && CountIn(after, Checkpoint) == CountIn(blocks, Checkpoint)
      && UsedChunks(after, start, per) == UsedChunks(blocks, start, per)
  {
    hide Recount; hide CountIn; hide UsedChunks;
    var b := blocks[i].(state := Full);
    RecountUpdate(blocks, i, b, per);
    CountUpdate(blocks, i, b, Empty);
    CountUpdate(blocks, i, b, Checkpoint);
    UsedUpdate(blocks, start, per, i, b, 0);
  }

  /** Blocks that were full or being collected did not change. */
  ghost predicate KeepsClosed(before: seq<BlockInfo>, after: seq<BlockInfo>) {
    |after| == |before| && forall j | 0 <= j < |before| && before[j].state in {Full, Collecting} :: after[j] == before[j]
  }

  lemma {:induction false} SoftIsUsed(blocks: seq<BlockInfo>, soft: seq<set<nat>>, start: nat, per: nat)
    requires per > 0 && AllOk(blocks, soft, per)
    ensures SoftChunks(soft, start, per) <= UsedChunks(blocks, start, per)
    ensures forall c | c in UsedChunks(blocks, start, per) :: c / per >= start
  {
    forall c: nat | IsSoft(soft, start, per, c) ensures InUse(blocks, start, per, c) {
      var i := BlockOf(c, per) - start;
      assert BlockOk(blocks[i], soft[i], per);
    }
  }

  lemma KeptAfterWrite(nand: map<nat, Written>, after: map<nat, Written>, chunk: nat, used: iset<nat>)
    requires forall c | c != chunk :: Same(nand, after, c)
    ensures Kept(nand, after, used - iset{chunk})
  {
  }

  /** No block began to be collected. */
  ghost predicate NoNewCollecting(before: seq<BlockInfo>, after: seq<BlockInfo>) {
    |after| == |before| && forall j | 0 <= j < |before| && after[j].state == Collecting :: before[j].state == Collecting
  }

  /** No block began to be collected, and no closed block but i changed. */
  ghost predicate ClosedExcept(before: seq<BlockInfo>, after: seq<BlockInfo>, i: int) {
    && NoNewCollecting(before, after)
    && forall j | 0 <= j < |before| && j != i && before[j].state in {Full, Collecting} :: after[j] == before[j]
  }

  lemma ClosedExceptUpdate(before: seq<BlockInfo>, i: nat, b: BlockInfo)
    requires i < |before| && b.state == before[i].state
    ensures ClosedExcept(before, before[i := b], i)
  {
  }

  lemma ClosedExceptTrans(x: seq<BlockInfo>, y: seq<BlockInfo>, z: seq<BlockInfo>, i: int)
    requires ClosedExcept(x, y, i) && ClosedExcept(y, z, i)
    ensures ClosedExcept(x, z, i)
  {
  }

  lemma {:induction false} AtMostOne(blocks: seq<BlockInfo>, state: BlockState, k: int)
    requires forall i | 0 <= i < |blocks| && blocks[i].state == state :: i == k
    ensures CountIn(blocks, state) <= 1
  {
    if blocks != [] {
      var n := |blocks| - 1;
      AtMostOne(blocks[..n], state, k);
      if blocks[n].state == state { CountNone(blocks[..n], state); }
    }
  }
}
