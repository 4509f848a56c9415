/** Objects over the chunk allocator: writing, deleting and soft-deleting chunks, and garbage collection,
    which moves chunks without changing what any object holds.
 */
module FileStore {
  import opened FlashBlocks
  import opened References
  import opened ChunkAllocator

  // ----- what an object holds

  ghost predicate SameChunk(m: map<nat, Written>, c: nat, n: map<nat, Written>, d: nat) {
    c in m && d in n && m[c].nBytes == n[d].nBytes && m[c].payload == n[d].payload
  }

  /** A header written anew: it says the present size of a file, and no longer that it shrank or shadows anything. */
  ghost predicate SaidAnew(m: map<nat, Written>, c: nat, n: map<nat, Written>, d: nat, o: Object) {
    && c in m && d in n && m[c].nBytes == n[d].nBytes && m[c].payload.Header?
    && n[d].payload == Header(if o.isFile then o.storedSize else m[c].payload.size, false, 0, m[c].payload.rest)
  }

  /** All but the header of object p on flash n is what o holds on flash m. */
  ghost predicate SameData(o: Object, m: map<nat, Written>, p: Object, n: map<nat, Written>) {
    && p.softDeleted == o.softDeleted && p.isFile == o.isFile && p.storedSize == o.storedSize
    && p.chunks.Keys == o.chunks.Keys && (p.hdr > 0 <==> o.hdr > 0)
    && (forall k | k in o.chunks && k in p.chunks :: SameChunk(m, o.chunks[k], n, p.chunks[k]))
  }

  /** Object p on flash n holds what o holds on flash m. */
  ghost predicate SameView(o: Object, m: map<nat, Written>, p: Object, n: map<nat, Written>) {
    SameData(o, m, p, n) && (o.hdr > 0 ==> SameChunk(m, o.hdr, n, p.hdr))
  }

  /** The same, but the header may have been written anew. */
  ghost predicate CollectedView(o: Object, m: map<nat, Written>, p: Object, n: map<nat, Written>) {
    SameData(o, m, p, n) && (o.hdr > 0 ==> SameChunk(m, o.hdr, n, p.hdr) || SaidAnew(m, o.hdr, n, p.hdr, o))
  }

  /** All objects hold what they held; objects finally deleted had been soft-deleted before. */
  ghost predicate SameViews(os: map<nat, Object>, m: map<nat, Written>, ps: map<nat, Object>, n: map<nat, Written>) {
    && ps.Keys <= os.Keys
    && (forall id | id in os && !os[id].softDeleted :: id in ps)
    && (forall id | id in ps :: SameView(os[id], m, ps[id], n))
  }

  /** The same after a collection, which may have written headers anew. */
  ghost predicate CollectedViews(os: map<nat, Object>, m: map<nat, Written>, ps: map<nat, Object>, n: map<nat, Written>) {
    && ps.Keys <= os.Keys
    && (forall id | id in os && !os[id].softDeleted :: id in ps)
    && (forall id | id in ps :: CollectedView(os[id], m, ps[id], n))
  }

  lemma Unmoved(os: map<nat, Object>, m: map<nat, Written>, ps: map<nat, Object>, n: map<nat, Written>)
    requires SameViews(os, m, ps, n)
    ensures CollectedViews(os, m, ps, n)
  {
    hide SameData; hide SameChunk; hide SaidAnew;
  }

  lemma {:induction false} SameDataTrans(o: Object, l: map<nat, Written>, p: Object, m: map<nat, Written>, q: Object, n: map<nat, Written>)
    requires SameData(o, l, p, m) && SameData(p, m, q, n)
    ensures SameData(o, l, q, n)
  {
    forall k | k in o.chunks && k in q.chunks ensures SameChunk(l, o.chunks[k], n, q.chunks[k]) {
      assert k in p.chunks;
      assert SameChunk(l, o.chunks[k], m, p.chunks[k]) && SameChunk(m, p.chunks[k], n, q.chunks[k]);
    }
  }

  lemma {:induction false} CollectedTrans(
    os: map<nat, Object>, l: map<nat, Written>, ps: map<nat, Object>, m: map<nat, Written>, qs: map<nat, Object>, n: map<nat, Written>)
    requires CollectedViews(os, l, ps, m) && CollectedViews(ps, m, qs, n)
    ensures CollectedViews(os, l, qs, n)
  {
    hide CollectedView;
    forall id | id in os && !os[id].softDeleted ensures id in qs {
      assert CollectedView(os[id], l, ps[id], m);
      SoftKept(os[id], l, ps[id], m);
    }
    forall id | id in qs ensures CollectedView(os[id], l, qs[id], n) {
      CollectedViewTrans(os[id], l, ps[id], m, qs[id], n);
    }
  }

  lemma CollectedViewTrans(o: Object, l: map<nat, Written>, p: Object, m: map<nat, Written>, q: Object, n: map<nat, Written>)
    requires CollectedView(o, l, p, m) && CollectedView(p, m, q, n)
    ensures CollectedView(o, l, q, n)
  {
    SameDataTrans(o, l, p, m, q, n);
  }

  lemma SoftKept(o: Object, l: map<nat, Written>, p: Object, m: map<nat, Written>)
    requires SameView(o, l, p, m) || CollectedView(o, l, p, m)
    ensures p.softDeleted == o.softDeleted
  {
  }

  /** An object none of whose chunks changed. */
  lemma {:induction false} SameViewKept(id: nat, o: Object, p: Object, mine: set<nat>, used: iset<nat>, soft: iset<nat>,
                                        m: map<nat, Written>, n: map<nat, Written>)
    requires ObjectOk(id, o, mine, used, soft, m) && p == o.(nData := p.nData)
    requires forall c | c in used && c !in soft && c in m && m[c].objId == id :: Same(m, n, c)
    ensures SameView(o, m, p, n)
  {
    hide SoftsOk; hide Same;
    forall k | k in o.chunks && k in p.chunks ensures SameChunk(m, o.chunks[k], n, p.chunks[k]) {
      assert RefOk(o.chunks[k], id, k, used, soft, m);
      SameChunkKept(m, n, o.chunks[k]);
    }
    if o.hdr > 0 { SameChunkKept(m, n, o.hdr); }
  }

  lemma SameChunkKept(m: map<nat, Written>, n: map<nat, Written>, c: nat)
    requires c in m && Same(m, n, c)
    ensures SameChunk(m, c, n, c)
  {
  }

  /** All objects, when every chunk that was and is in use is unchanged and only o's chunk k moved. */
  lemma {:induction false} ViewsMoved(
    objects: map<nat, Object>, softOf: SoftOf, used: iset<nat>, soft: iset<nat>, m: map<nat, Written>,
    id: nat, k: nat, new_: nat, used': iset<nat>, n: map<nat, Written>)
    requires Linked(objects, softOf, used, soft, m) && id in objects && ChunkAt(objects[id], k) > 0
    requires Moved(id, k, ChunkAt(objects[id], k), new_, used, m, used', n)
    requires SameChunk(m, ChunkAt(objects[id], k), n, new_) || (k == 0 && SaidAnew(m, objects[id].hdr, n, new_, objects[id]))
    ensures CollectedViews(objects, m, objects[id := WithChunk(objects[id], k, new_)], n)
  {
    hide SoftsOk; hide SameData; hide Same; hide SameChunk; hide SaidAnew;
    var ps := objects[id := WithChunk(objects[id], k, new_)];
    OldIsTagged(objects, softOf, used, soft, m, id, k);
    MovedStays(id, k, ChunkAt(objects[id], k), new_, used, soft, m, used', n);
    forall x | x in ps ensures CollectedView(objects[x], m, ps[x], n) {
      if x != id {
        SameViewKept(x, objects[x], ps[x], softOf[x], used, soft, m, n);
      } else {
        ViewOfMoved(objects[id], softOf[id], used, soft, m, id, k, new_, used', n);
      }
    }
  }

  lemma {:induction false} ViewOfMoved(
    o: Object, mine: set<nat>, used: iset<nat>, soft: iset<nat>, m: map<nat, Written>,
    id: nat, k: nat, new_: nat, used': iset<nat>, n: map<nat, Written>)
    requires ObjectOk(id, o, mine, used, soft, m) && ChunkAt(o, k) > 0
    requires Moved(id, k, ChunkAt(o, k), new_, used, m, used', n)
    requires SameChunk(m, ChunkAt(o, k), n, new_) || (k == 0 && SaidAnew(m, o.hdr, n, new_, o))
    ensures CollectedView(o, m, WithChunk(o, k, new_), n)
  {
    hide SoftsOk; hide SameChunk; hide Same; hide SaidAnew;
    var p := WithChunk(o, k, new_);
    assert RefsOk(id, o.chunks, used, soft, m);
    assert k > 0 ==> k in o.chunks && RefOk(o.chunks[k], id, k, used, soft, m);
    forall j | j in o.chunks && j in p.chunks ensures SameChunk(m, o.chunks[j], n, p.chunks[j]) {
      if j != k {
        assert RefOk(o.chunks[j], id, j, used, soft, m);
        SameChunkKept(m, n, o.chunks[j]);
      }
    }
    if o.hdr > 0 && k > 0 { SameChunkKept(m, n, o.hdr); }
  }

  /** All objects, when unreferenced or soft-deleted chunks went away and only counts changed. */
  lemma {:induction false} SameViewsKept(
    objects: map<nat, Object>, softOf: SoftOf, used: iset<nat>, soft: iset<nat>, m: map<nat, Written>,
    ps: map<nat, Object>, n: map<nat, Written>)
    requires Linked(objects, softOf, used, soft, m) && ps.Keys == objects.Keys
    requires forall id | id in ps :: ps[id] == objects[id].(nData := ps[id].nData)
    requires forall c | c in used && c !in soft :: Same(m, n, c)
    ensures SameViews(objects, m, ps, n)
  {
    hide SameView; hide ObjectOk;
    forall id | id in ps ensures SameView(objects[id], m, ps[id], n) {
      SameViewKept(id, objects[id], ps[id], softOf[id], used, soft, m, n);
    }
  }

  // ----- soft deletion settled

  ghost predicate Settled(objects: map<nat, Object>, softOf: SoftOf) {
    forall id | id in objects && id in softOf :: if objects[id].softDeleted then objects[id].chunks == map[] else softOf[id] == {}
  }

  /** Objects waiting for their final deletion have no data left. */
  ghost predicate Doomed(objects: map<nat, Object>, ids: seq<nat>, from: nat) {
    forall j | from <= j < |ids| && ids[j] in objects :: objects[ids[j]].softDeleted && objects[ids[j]].nData == 0
  }

  ghost predicate AllKnown(objects: map<nat, Object>, ids: seq<nat>) {
    forall j | 0 <= j < |ids| :: ids[j] in objects
  }

  /** Only block i may be being collected. */
  ghost predicate CollectingOnly(blocks: seq<BlockInfo>, i: int) {
    forall j | 0 <= j < |blocks| && blocks[j].state == Collecting :: j == i
  }

  /** Every soft-deleted object without data is on the list, unless it had none before. */
  ghost predicate Listed(os: map<nat, Object>, ps: map<nat, Object>, ids: seq<nat>) {
    forall id | id in ps && ps[id].softDeleted && ps[id].nData <= 0 :: id in ids || (id in os && os[id].nData <= 0)
  }

  lemma ListedTrans(os: map<nat, Object>, ps: map<nat, Object>, ids: seq<nat>, qs: map<nat, Object>, more: seq<nat>)
    requires Listed(os, ps, ids) && Listed(ps, qs, more) && ids <= more && qs.Keys <= ps.Keys
    requires forall id | id in qs :: qs[id].softDeleted == ps[id].softDeleted
    ensures Listed(os, qs, more)
  {
    assert ids == more[..|ids|];
  }

  lemma ListedSame(os: map<nat, Object>, ids: seq<nat>)
    ensures Listed(os, os, ids)
  {
  }

  /** A chunk that is written again leaves the number of data chunks. */
  lemma ListedMoved(os: map<nat, Object>, id: nat, k: nat, chunk: nat, ids: seq<nat>)
    requires id in os && ChunkAt(os[id], k) > 0
    ensures Listed(os, os[id := WithChunk(os[id], k, chunk)], ids)
  {
  }

  lemma ViewsSoft(os: map<nat, Object>, m: map<nat, Written>, ps: map<nat, Object>, n: map<nat, Written>)
    requires CollectedViews(os, m, ps, n)
    ensures ps.Keys <= os.Keys && forall id | id in ps :: ps[id].softDeleted == os[id].softDeleted
  {
    hide SameChunk; hide SaidAnew;
  }

  /** One more chunk collected. */
  lemma ListedMore(os: map<nat, Object>, ps: map<nat, Object>, m: map<nat, Written>, ids: seq<nat>, qs: map<nat, Object>, n: map<nat, Written>, more: seq<nat>)
    requires Listed(os, ps, ids) && Listed(ps, qs, more) && ids <= more && CollectedViews(ps, m, qs, n)
    ensures Listed(os, qs, more)
  {
    hide CollectedViews; hide Listed;
    ViewsSoft(ps, m, qs, n);
    ListedTrans(os, ps, ids, qs, more);
  }

  /** The objects on the list are gone. */
  lemma ListGone(os: map<nat, Object>, ps: map<nat, Object>, ids: seq<nat>, qs: map<nat, Object>, some: seq<nat>)
    requires Listed(os, ps, ids) && some <= ids && forall id :: id in qs <==> id in ps && id !in ids
    requires forall id | id in qs :: qs[id] == ps[id]
    ensures Listed(os, qs, []) && forall id | id in some :: id !in qs
  {
    forall id | id in some ensures id !in qs { assert some == ids[..|some|]; }
  }

  /** v is the collector's copy of w, a chunk of o: a header says the file's present size and no longer that it
      shrank or shadows anything.
   */
  ghost predicate CopyOf(w: Written, o: Object, v: Written) {
    && v.objId == w.objId && v.chunkId == w.chunkId && v.nBytes == w.nBytes && v.serial == w.serial + 1
    && v.payload == if w.chunkId == 0 && w.payload.Header?
                    then Header(if o.isFile then o.storedSize else w.payload.size, false, 0, w.payload.rest)
                    else w.payload
  }

  /** An object whose stored size reaches the end of chunk k; the end is computed in 32 bits. */
  function Raised(o: Object, k: nat, nBytes: nat, chunkBytes: nat): Object
    requires k > 0
  {
    var end := ((k - 1) * chunkBytes + nBytes) % 0x1_0000_0000;
    if o.storedSize < end then o.(storedSize := end) else o
  }

  class Store {
    const dev: Allocator
    /** data_bytes_per_chunk. */
    const chunkBytes: nat
    var objects: map<nat, Object>
    ghost var softOf: SoftOf
    var gcChunk: nat
    /** gc_cleanup_list. */
    var cleanups: seq<nat>

    ghost predicate LinkedNow()
      reads this, dev
      requires dev.Geometry()
    {
      Linked(objects, softOf, dev.Used(), dev.Soft(), dev.nand)
    }

    /** The invariant while block i is being collected. */
    ghost predicate InvWhile(i: int)
      reads this, dev
    {
      && dev.Valid() && LinkedNow() && Settled(objects, softOf) && CollectingOnly(dev.blocks, i)
      && Doomed(objects, cleanups, 0) && AllKnown(objects, cleanups)
    }

    /** The invariant between operations. */
    ghost predicate Inv()
      reads this, dev
    {
      InvWhile(-1) && |cleanups| <= gcChunk <= dev.per
    }

    constructor (start: nat, per: nat, nBlocks: nat, reservedBlocks: nat, wrAttempts: nat, chunkBytes: nat)
      requires start > 0 && 0 < per <= 511 && wrAttempts > 0
      ensures Inv() && objects == map[] && fresh(dev) && this.chunkBytes == chunkBytes
    {
      this.chunkBytes := chunkBytes;
      dev := new Allocator(start, per, nBlocks, reservedBlocks, wrAttempts);
      objects, softOf, gcChunk, cleanups := map[], map[], 0, [];
    }

    /** A fresh object without chunks. */
    method CreateObject(id: nat, isFile: bool) returns (ok: bool)
      requires Inv()
      modifies this`objects, this`softOf
      ensures Inv() && (ok <==> id !in old(objects))
      ensures objects == if ok then old(objects)[id := Object(0, map[], false, 0, isFile, 0)] else old(objects)
    {
      hide Linked;
      if id in objects {
        return false;
      }
      var o := Object(0, map[], false, 0, isFile, 0);
      Created(objects, softOf, dev.Used(), dev.Soft(), dev.nand, id, o);
      objects := objects[id := o];
      softOf := softOf[id := {}];
      ok := true;
    }

    // ----- rewriting one chunk

    /** Writes chunk k of an object, or its header for k = 0, to a new place and deletes the old one: the
        tail of yaffs_wr_data_obj, of yaffs_update_oh and of the collector.
     */
    method Rewrite(id: nat, k: nat, w: Written, useReserve: bool, ghost i: int) returns (chunk: int)
      requires InvWhile(i) && id in objects && (k > 0 ==> !objects[id].softDeleted) && w.objId == id && w.chunkId == k
      modifies this`objects, dev
      ensures InvWhile(i)
      ensures chunk < 0 ==> objects == old(objects) && dev.Used() == old(dev.Used()) && dev.Soft() == old(dev.Soft())
                            && Kept(old(dev.nand), dev.nand, dev.Used()) && KeepsClosed(old(dev.blocks), dev.blocks)
                            && dev.gcBlock == old(dev.gcBlock)
      ensures chunk >= 0 ==> objects == old(objects)[id := WithChunk(old(objects[id]), k, chunk)]
                             && Moved(id, k, ChunkAt(old(objects[id]), k), chunk, old(dev.Used()), old(dev.nand), dev.Used(), dev.nand)
                             && chunk in dev.nand && dev.nand[chunk] == w.(seqNumber := dev.nand[chunk].seqNumber)
                             && dev.Soft() == old(dev.Soft())
      ensures chunk >= 0 && ChunkAt(old(objects[id]), k) > 0 ==> var c := ChunkAt(old(objects[id]), k); var b := BlockOf(c, dev.per) - dev.start;
        0 <= b < |old(dev.blocks)| == |dev.blocks| && (old(dev.blocks[b]).state in {Full, Collecting} ==>
          dev.LostChunk(old(dev.blocks[b]), dev.blocks[b], PageOf(c, dev.per))
          && (dev.gcBlock == old(dev.gcBlock) || (dev.gcBlock == 0 && dev.blocks[b].state in {Empty, Dead})))
    {
      hide Linked; hide BlockOf; hide PageOf; hide UsedChunks; hide SoftChunks; hide Kept; hide Recount; hide CountIn; hide AllOk; hide AllocOk;
      hide Settled; hide Doomed; hide AllKnown; hide Moved; hide WithChunk; hide ChunkAt; hide KeepsClosed; hide Allocator.LostChunk;
      dev.SoftWithinUsed();
      OldIsTagged(objects, softOf, dev.Used(), dev.Soft(), dev.nand, id, k);
      ghost var used, nand := dev.Used(), dev.nand;
      chunk := MoveOnFlash(ChunkAt(objects[id], k), w, useReserve, i);
      if chunk < 0 {
        KeptLinked(objects, softOf, used, dev.Soft(), nand, dev.nand);
        return;
      }
      Rewritten(objects, softOf, used, dev.Soft(), nand, id, k, chunk, dev.Used(), dev.nand);
      RewrittenSettled(objects, softOf, cleanups, id, k, chunk);
      objects := objects[id := WithChunk(objects[id], k, chunk)];
    }

    /** A write to a new place and the deletion of the old one, prev, or of none when prev is 0. */
    method MoveOnFlash(prev: nat, w: Written, useReserve: bool, ghost i: int) returns (chunk: int)
      requires dev.Valid() && CollectingOnly(dev.blocks, i) && 0 !in dev.Used() && (prev > 0 ==> prev in dev.Used() && prev !in dev.Soft())
      modifies dev
      ensures dev.Valid() && CollectingOnly(dev.blocks, i) && dev.Soft() == old(dev.Soft())
      ensures chunk < 0 ==> dev.Used() == old(dev.Used()) && Kept(old(dev.nand), dev.nand, dev.Used())
                            && KeepsClosed(old(dev.blocks), dev.blocks) && dev.gcBlock == old(dev.gcBlock)
      ensures chunk >= 0 ==> Moved(w.objId, w.chunkId, prev, chunk, old(dev.Used()), old(dev.nand), dev.Used(), dev.nand)
                             && chunk in dev.nand && dev.nand[chunk] == w.(seqNumber := dev.nand[chunk].seqNumber)
      ensures chunk >= 0 && prev > 0 ==> var b := BlockOf(prev, dev.per) - dev.start;
        0 <= b < |old(dev.blocks)| == |dev.blocks| && (old(dev.blocks[b]).state in {Full, Collecting} ==>
          dev.LostChunk(old(dev.blocks[b]), dev.blocks[b], PageOf(prev, dev.per))
          && (dev.gcBlock == old(dev.gcBlock) || (dev.gcBlock == 0 && dev.blocks[b].state in {Empty, Dead})))
    {
      hide BlockOf; hide PageOf; hide UsedChunks; hide SoftChunks; hide Kept; hide Recount; hide CountIn; hide AllOk; hide AllocOk;
      hide Allocator.LostChunk;
      ghost var used, nand := dev.Used(), dev.nand;
      ghost var failures;
      chunk, failures := dev.WriteNewChunk(w, useReserve);
      if chunk < 0 {
        return;
      }
      ghost var written := dev.nand;
      dev.ChunkDel(prev);
      KeptBoth(nand, written, dev.nand, used, dev.Used(), chunk);
    }

    // ----- garbage collection

    /** A soft-deleted chunk of the block being collected is no longer counted as free, and then deleted. */
    method DropSoft(c: nat, ghost i: nat)
      requires dev.Valid() && c > 0 && c in dev.Used() && c in dev.Soft() && CollectingOnly(dev.blocks, i)
      requires BlockOf(c, dev.per) == dev.start + i && i < |dev.blocks| && dev.blocks[i].state == Collecting && !dev.blocks[i].hasShrinkHdr
      modifies dev
      ensures dev.Valid() && dev.Used() == old(dev.Used()) - iset{c} && dev.Soft() == old(dev.Soft()) - iset{c}
      ensures Kept(old(dev.nand), dev.nand, dev.Used()) && CollectingOnly(dev.blocks, i)
      ensures Progress(old(dev.blocks), dev.blocks, i, PageOf(c, dev.per), dev.gcBlock, old(dev.gcBlock))
    {
      hide BlockOf; hide PageOf; hide UsedChunks; hide SoftChunks; hide Kept; hide Recount; hide CountIn; hide AllOk; hide AllocOk;
      dev.ReclaimSoft(c);
      dev.ChunkDel(c);
    }

    /** The collector's branch for a chunk of a soft-deleted object: nothing is copied. */
    method CollectSoft(c: nat, id: nat, ghost i: nat)
      requires InvWhile(i) && c in dev.Used() && c in dev.nand && dev.nand[c].objId == id && dev.nand[c].chunkId > 0
      requires id in objects && objects[id].softDeleted
      requires BlockOf(c, dev.per) == dev.start + i && i < |dev.blocks| && dev.blocks[i].state == Collecting && !dev.blocks[i].hasShrinkHdr
      modifies this`objects, this`softOf, this`cleanups, dev
      ensures InvWhile(i) && |cleanups| <= |old(cleanups)| + 1
      ensures old(cleanups) <= cleanups && Listed(old(objects), objects, cleanups)
      ensures CollectedViews(old(objects), old(dev.nand), objects, dev.nand)
      ensures Progress(old(dev.blocks), dev.blocks, i, PageOf(c, dev.per), dev.gcBlock, old(dev.gcBlock))
    {
      hide Linked; hide BlockOf; hide PageOf; hide UsedChunks; hide SoftChunks; hide Kept; hide Recount; hide CountIn; hide AllOk; hide AllocOk;
      hide SameViews; hide CollectedViews; hide Settled; hide Doomed; hide AllKnown;
      ghost var used, soft, nand := dev.Used(), dev.Soft(), dev.nand;
      dev.SoftWithinUsed();
      SoftOwner(objects, softOf, used, soft, nand, c);
      DropSoft(c, i);
      Reclaimed(objects, softOf, used, soft, nand, c, dev.Used(), dev.Soft(), dev.nand);
      ghost var was := objects;
      var o := objects[id].(nData := objects[id].nData - 1);
      objects := objects[id := o];
      softOf := softOf[id := softOf[id] - {c}];
      KeptSame(nand, dev.nand, dev.Used());
      SameViewsKept(was, old(softOf), used, soft, nand, objects, dev.nand);
      Unmoved(was, nand, objects, dev.nand);
      DataCount(objects, softOf, dev.Used(), dev.Soft(), dev.nand, id);
      SoftCollected(was, old(softOf), cleanups, id, o, softOf[id]);
      if o.nData <= 0 {
        cleanups := cleanups + [id];
      }
      assert Listed(was, objects, cleanups);
    }

    /** One chunk of block i left it. */
    ghost predicate Progress(before: seq<BlockInfo>, after: seq<BlockInfo>, i: nat, p: nat, gcAfter: nat, gcBefore: nat)
      requires i < |before|
    {
      && |after| == |before|
      && (|| (after[i].state == Collecting && !after[i].hasShrinkHdr && after[i].bits == before[i].bits - {p} && after[i].bits != {})
          || (after[i].state in {Empty, Dead} && before[i].bits == {p}))
      && (gcAfter == gcBefore || (gcAfter == 0 && after[i].state in {Empty, Dead}))
    }

    /** The collector's branch for a chunk that is referred to: a copy replaces it. */
    method CollectCopy(c: nat, id: nat, ghost i: nat) returns (ok: bool)
      requires InvWhile(i) && c in dev.Used() && c in dev.nand && dev.nand[c].objId == id
      requires id in objects && (dev.nand[c].chunkId > 0 ==> !objects[id].softDeleted)
      requires BlockOf(c, dev.per) == dev.start + i && i < |dev.blocks| && dev.blocks[i].state == Collecting && !dev.blocks[i].hasShrinkHdr
      modifies this`objects, dev
      ensures InvWhile(i) && Listed(old(objects), objects, cleanups)
      ensures CollectedViews(old(objects), old(dev.nand), objects, dev.nand)
      ensures ok ==> id in objects && var d := ChunkAt(objects[id], old(dev.nand[c]).chunkId);
                     d in dev.nand && CopyOf(old(dev.nand[c]), old(objects[id]), dev.nand[d])
      ensures ok ==> Progress(old(dev.blocks), dev.blocks, i, PageOf(c, dev.per), dev.gcBlock, old(dev.gcBlock))
      ensures !ok ==> |dev.blocks| == |old(dev.blocks)| && dev.blocks[i] == old(dev.blocks[i]) && dev.gcBlock == old(dev.gcBlock)
    {
      hide Linked; hide BlockOf; hide PageOf; hide UsedChunks; hide SoftChunks; hide Kept; hide Recount; hide CountIn; hide AllOk; hide AllocOk;
      hide SameViews; hide CollectedViews; hide Moved; hide Settled; hide Doomed; hide AllKnown; hide Listed;
      ghost var used, soft, nand, was := dev.Used(), dev.Soft(), dev.nand, objects;
      dev.SoftWithinUsed();
      var w := dev.nand[c];
      CopyOwner(objects, softOf, used, soft, nand, c);
      var v := w.(serial := w.serial + 1);
      if w.chunkId == 0 && w.payload.Header? {
        v := v.(payload := Header(if objects[id].isFile then objects[id].storedSize else w.payload.size, false, 0, w.payload.rest));
      }
      var chunk := Rewrite(id, w.chunkId, v, true, i);
      ok := chunk >= 0;
      if ok {
        WrittenAt(was[id], w.chunkId, chunk);
        ListedMoved(was, id, w.chunkId, chunk, cleanups);
        ViewsMoved(was, softOf, used, soft, nand, id, w.chunkId, chunk, dev.Used(), dev.nand);
      } else {
        ListedSame(was, cleanups);
        KeptSame(nand, dev.nand, used);
        SameViewsKept(was, softOf, used, soft, nand, objects, dev.nand);
        Unmoved(was, nand, objects, dev.nand);
      }
    }

    /** yaffs_gc_process_chunk. */
    method GcProcessChunk(c: nat, i: nat) returns (ok: bool)
      requires InvWhile(i) && c in dev.Used()
      requires BlockOf(c, dev.per) == dev.start + i && i < |dev.blocks| && dev.blocks[i].state == Collecting && !dev.blocks[i].hasShrinkHdr
      modifies this`objects, this`softOf, this`cleanups, dev
      ensures InvWhile(i) && |cleanups| <= |old(cleanups)| + 1
      ensures old(cleanups) <= cleanups && Listed(old(objects), objects, cleanups)
      ensures CollectedViews(old(objects), old(dev.nand), objects, dev.nand)
      ensures c in old(dev.nand) && old(dev.nand)[c].objId in old(objects)
      ensures var w := old(dev.nand)[c]; var o := old(objects)[w.objId];
        ok && !(o.softDeleted && w.chunkId != 0) ==>
          w.objId in objects && var d := ChunkAt(objects[w.objId], w.chunkId); d in dev.nand && CopyOf(w, o, dev.nand[d])
      ensures ok ==> Progress(old(dev.blocks), dev.blocks, i, PageOf(c, dev.per), dev.gcBlock, old(dev.gcBlock))
      ensures !ok ==> |dev.blocks| == |old(dev.blocks)| && dev.blocks[i].state == Collecting && !dev.blocks[i].hasShrinkHdr
                      && dev.blocks[i].bits == old(dev.blocks[i]).bits && dev.gcBlock == old(dev.gcBlock)
    {
      hide Linked; hide BlockOf; hide PageOf; hide UsedChunks; hide SoftChunks; hide Kept; hide Recount; hide CountIn; hide AllOk; hide AllocOk;
      hide SameViews; hide CollectedViews; hide Settled; hide Doomed; hide AllKnown; hide Listed;
      ghost var before := dev.blocks;
      var eccError: bool := *;
      if eccError {
        dev.SetFlags(i, dev.AfterChunkError(dev.blocks[i]));
      }
      Owner(objects, softOf, dev.Used(), dev.Soft(), dev.nand, c);
      var id := dev.nand[c].objId;
      if objects[id].softDeleted && dev.nand[c].chunkId != 0 {
        CollectSoft(c, id, i);
        ok := true;
      } else {
        ok := CollectCopy(c, id, i);
      }
    }

    // ----- a whole collection

    /** The loop of yaffs_gc_block: at most maxCopies chunks of block i. */
    method CollectChunks(i: nat, maxCopies: nat) returns (ok: bool)
      requires InvWhile(i) && i < |dev.blocks| && dev.blocks[i].state == Collecting && !dev.blocks[i].hasShrinkHdr && dev.blocks[i].bits != {}
      requires |cleanups| <= gcChunk <= dev.per
      modifies this`objects, this`softOf, this`cleanups, this`gcChunk, dev
      ensures InvWhile(i) && |cleanups| <= gcChunk <= dev.per
      ensures old(cleanups) <= cleanups && Listed(old(objects), objects, cleanups)
      ensures CollectedViews(old(objects), old(dev.nand), objects, dev.nand)
      ensures i < |dev.blocks| == |old(dev.blocks)| && dev.blocks[i].state in {Collecting, Empty, Dead}
      ensures dev.gcBlock == old(dev.gcBlock) || (dev.gcBlock == 0 && dev.blocks[i].state in {Empty, Dead})
      ensures ok && old(gcChunk) == 0 && maxCopies == dev.per ==> dev.blocks[i].state in {Empty, Dead}
      ensures ok && dev.blocks[i].state == Collecting && gcChunk < dev.per ==> |dev.blocks[i].bits| == |old(dev.blocks[i]).bits| - maxCopies
    {
      hide Linked; hide BlockOf; hide PageOf; hide UsedChunks; hide SoftChunks; hide Kept; hide Recount; hide CountIn; hide AllocOk;
      hide SameViews; hide CollectedViews; hide Settled; hide Doomed; hide AllKnown; hide Listed; hide ChunkOf;
      ok := true;
      var copies := maxCopies;
      SameViewsSelf(objects, softOf, dev.Used(), dev.Soft(), dev.nand);
      Unmoved(objects, dev.nand, objects, dev.nand);
      BitsBelow(dev.blocks, dev.soft, dev.per, i);
      ListedSame(objects, cleanups);
      while ok && gcChunk < dev.per && dev.blocks[i].state == Collecting && copies > 0
        invariant InvWhile(i) && |cleanups| <= gcChunk <= dev.per && i < |dev.blocks| == |old(dev.blocks)| && 0 <= copies <= maxCopies
        invariant CollectedViews(old(objects), old(dev.nand), objects, dev.nand)
        invariant old(cleanups) <= cleanups && Listed(old(objects), objects, cleanups)
        invariant dev.blocks[i].state == Collecting ==>
          !dev.blocks[i].hasShrinkHdr && dev.blocks[i].bits != {} && (forall p | p in dev.blocks[i].bits :: p < dev.per)
        invariant dev.blocks[i].state in {Collecting, Empty, Dead}
        invariant dev.gcBlock == old(dev.gcBlock) || (dev.gcBlock == 0 && dev.blocks[i].state in {Empty, Dead})
        invariant maxCopies - copies <= gcChunk
        invariant ok && dev.blocks[i].state == Collecting ==> |dev.blocks[i].bits| == |old(dev.blocks[i]).bits| - (maxCopies - copies)
        invariant ok && old(gcChunk) == 0 && dev.blocks[i].state == Collecting ==> forall p | p in dev.blocks[i].bits :: gcChunk <= p
      {
        if gcChunk in dev.blocks[i].bits {
          copies := copies - 1;
          var c := ChunkOf(dev.start + i, gcChunk, dev.per);
          BitIsUsed(dev.blocks, dev.start, dev.per, i, gcChunk);
          ghost var objects0, nand0, cleanups0 := objects, dev.nand, cleanups;
          ok := GcProcessChunk(c, i);
          ListedMore(old(objects), objects0, nand0, cleanups0, objects, dev.nand, cleanups);
          CollectedTrans(old(objects), old(dev.nand), objects0, nand0, objects, dev.nand);
        }
        gcChunk := gcChunk + 1;
      }
    }

    /** The final deletion of the objects on the clean-up list. */
    method CleanUp()
      requires InvWhile(-1)
      modifies this`objects, this`softOf, this`cleanups, dev
      ensures InvWhile(-1) && cleanups == [] && dev.Used() <= old(dev.Used())
      ensures CollectedViews(old(objects), old(dev.nand), objects, dev.nand)
      ensures dev.gcBlock == old(dev.gcBlock) || dev.gcBlock == 0
      ensures forall id :: id in objects <==> id in old(objects) && id !in old(cleanups)
      ensures forall id | id in objects :: objects[id] == old(objects)[id]
    {
      hide Linked; hide BlockOf; hide PageOf; hide UsedChunks; hide SoftChunks; hide Kept; hide Recount; hide CountIn; hide AllOk; hide AllocOk;
      hide SameViews; hide CollectedViews; hide Settled;
      SameViewsSelf(objects, softOf, dev.Used(), dev.Soft(), dev.nand);
      Unmoved(objects, dev.nand, objects, dev.nand);
      var ids := cleanups;
      cleanups := [];
      var j := 0;
      while j < |ids|
        invariant j <= |ids| && cleanups == [] && dev.Used() <= old(dev.Used()) && InvWhile(-1) && Doomed(objects, ids, j)
        invariant CollectedViews(old(objects), old(dev.nand), objects, dev.nand)
        invariant dev.gcBlock == old(dev.gcBlock) || dev.gcBlock == 0
        invariant forall id :: id in objects <==> id in old(objects) && id !in ids[..j]
        invariant forall id | id in objects :: objects[id] == old(objects)[id]
      {
        if ids[j] in objects {
          ghost var objects0, nand0 := objects, dev.nand;
          DeleteObject(ids[j]);
          SameViewsLess(objects0, nand0, objects, dev.nand, ids[j]);
          Unmoved(objects0, nand0, objects, dev.nand);
          CollectedTrans(old(objects), old(dev.nand), objects0, nand0, objects, dev.nand);
        }
        assert ids[..j + 1] == ids[..j] + [ids[j]];
        j := j + 1;
      }
      assert ids[..j] == ids;
    }

    /** An object without data goes, and its header chunk with it. */
    method DeleteObject(id: nat)
      requires InvWhile(-1) && id in objects && objects[id].nData == 0 && id !in cleanups
      modifies this`objects, this`softOf, dev
      ensures InvWhile(-1) && objects == old(objects) - {id} && dev.Used() <= old(dev.Used())
      ensures forall x | x in objects :: SameView(old(objects)[x], old(dev.nand), objects[x], dev.nand)
      ensures dev.gcBlock == old(dev.gcBlock) || dev.gcBlock == 0
    {
      hide Linked; hide BlockOf; hide PageOf; hide UsedChunks; hide SoftChunks; hide Kept; hide Recount; hide CountIn; hide AllOk; hide AllocOk;
      hide SameView; hide Settled; hide Doomed; hide AllKnown;
      ghost var used, soft, nand := dev.Used(), dev.Soft(), dev.nand;
      dev.SoftWithinUsed();
      DataCount(objects, softOf, used, soft, nand, id);
      HeaderInUse(objects, softOf, used, soft, nand, id);
      dev.ChunkDel(objects[id].hdr);
      Removed(objects, softOf, used, soft, nand, id, dev.Used(), dev.nand);
      SameViewsRemoved(objects, softOf, used, soft, nand, id, dev.Used(), dev.nand);
      RemovedSettled(objects, softOf, cleanups, id);
      objects := objects - {id};
      softOf := softOf - {id};
    }

    /** The chosen block is collected as far as maxCopies allows, or erased when it has no chunk in use. */
    method CollectBlock(i: nat, maxCopies: nat) returns (ok: bool)
      requires Inv() && i < |dev.blocks| && dev.gcBlock == dev.start + i
      modifies this`objects, this`softOf, this`cleanups, this`gcChunk, dev
      ensures InvWhile(i) && |cleanups| <= gcChunk <= dev.per && i < |dev.blocks| == |old(dev.blocks)|
      ensures CollectedViews(old(objects), old(dev.nand), objects, dev.nand)
      ensures old(cleanups) <= cleanups && Listed(old(objects), objects, cleanups)
      ensures dev.blocks[i].state in {Collecting, Empty, Dead}
      ensures dev.gcBlock == old(dev.gcBlock) || (dev.gcBlock == 0 && dev.blocks[i].state in {Empty, Dead})
      ensures ok && old(gcChunk) == 0 && maxCopies == dev.per ==> dev.blocks[i].state in {Empty, Dead}
      ensures ok && dev.blocks[i].state == Collecting && gcChunk < dev.per ==> |dev.blocks[i].bits| == |old(dev.blocks[i]).bits| - maxCopies
    {
      hide Linked; hide BlockOf; hide PageOf; hide UsedChunks; hide SoftChunks; hide Kept; hide Recount; hide CountIn; hide AllOk; hide AllocOk;
      hide SameViews; hide CollectedViews; hide Settled; hide Doomed; hide AllKnown; hide Listed;
      ok := true;
      SameViewsSelf(objects, softOf, dev.Used(), dev.Soft(), dev.nand);
      Unmoved(objects, dev.nand, objects, dev.nand);
      ListedSame(objects, cleanups);
      dev.BeginCollect(i);
      if dev.blocks[i].bits == {} {
        ghost var used, nand := dev.Used(), dev.nand;
        dev.BlockBecameDirty(i);
        KeptLinked(objects, softOf, used, dev.Soft(), nand, dev.nand);
        KeptSame(nand, dev.nand, used);
        SameViewsKept(objects, softOf, used, dev.Soft(), nand, objects, dev.nand);
        Unmoved(objects, nand, objects, dev.nand);
      } else {
        ok := CollectChunks(i, maxCopies);
      }
    }

    /** yaffs_gc_block on the chosen block: everything, or five chunks of it. */
    method GcBlock(wholeBlock: bool) returns (ok: bool)
      requires Inv() && dev.gcBlock > 0
      modifies this, dev
      ensures Inv() && CollectedViews(old(objects), old(dev.nand), objects, dev.nand)
      ensures ok && wholeBlock && old(gcChunk) == 0 ==> forall c | c in dev.Used() :: BlockOf(c, dev.per) != old(dev.gcBlock)
      ensures dev.gcBlock in {0, old(dev.gcBlock)}
      ensures dev.gcBlock != 0 ==> old(cleanups) <= cleanups && Listed(old(objects), objects, cleanups)
      ensures dev.gcBlock == 0 ==> cleanups == [] && gcChunk == 0 && Listed(old(objects), objects, []) && forall id | id in old(cleanups) :: id !in objects
      ensures ok && !wholeBlock && dev.gcBlock != 0 && gcChunk < dev.per ==> var i := dev.gcBlock - dev.start;
        0 <= i < |dev.blocks| == |old(dev.blocks)| && |dev.blocks[i].bits| == |old(dev.blocks[i]).bits| - 5
    {
      hide Linked; hide BlockOf; hide PageOf; hide UsedChunks; hide SoftChunks; hide Kept; hide Recount; hide CountIn; hide AllOk; hide AllocOk;
      hide SameViews; hide CollectedViews; hide Settled; hide Doomed; hide AllKnown; hide Listed;
      var i := dev.gcBlock - dev.start;
      ok := CollectBlock(i, if wholeBlock then dev.per else 5);
      if dev.blocks[i].state == Collecting {
        dev.EndCollect(i);
      } else {
        ghost var objects0, nand0, cleanups0 := objects, dev.nand, cleanups;
        NothingUsed(dev.blocks, dev.soft, dev.start, dev.per, i);
        CleanUp();
        ListGone(old(objects), objects0, cleanups0, objects, old(cleanups));
        CollectedTrans(old(objects), old(dev.nand), objects0, nand0, objects, dev.nand);
        dev.ForgetGcBlock();
        gcChunk := 0;
        EmptyList(objects);
      }
    }

    /** The collection part of yaffs_check_gc: a collection goes on, or block i, which may be any full block, is chosen. */
    method CheckGc(i: int, aggressive: bool) returns (ok: bool)
      requires Inv()
      modifies this, dev
      ensures Inv() && CollectedViews(old(objects), old(dev.nand), objects, dev.nand)
      ensures old(dev.gcBlock) >= 1 ==> dev.gcBlock in {0, old(dev.gcBlock)}
      ensures old(dev.gcBlock) < 1 && !(0 <= i < |old(dev.blocks)| && old(dev.blocks)[i].state == Full) ==>
        ok && objects == old(objects) && dev.blocks == old(dev.blocks) && dev.nand == old(dev.nand) && dev.gcBlock == old(dev.gcBlock)
      ensures old(dev.gcBlock) < 1 && 0 <= i < |old(dev.blocks)| && old(dev.blocks)[i].state == Full ==>
        && dev.gcBlock in {0, dev.start + i}
        && (ok && aggressive ==> forall c | c in dev.Used() :: BlockOf(c, dev.per) != dev.start + i)
        && (ok && !aggressive && dev.gcBlock != 0 && gcChunk < dev.per ==>
              i < |dev.blocks| == |old(dev.blocks)| && |dev.blocks[i].bits| == |old(dev.blocks)[i].bits| - 5)
    {
      hide Linked; hide UsedChunks; hide SoftChunks; hide Kept; hide Recount;
      hide CountIn; hide AllOk; hide AllocOk; hide SameViews; hide CollectedViews;
      hide BlockOf; hide PageOf; hide Settled; hide Doomed; hide AllKnown; hide Listed;
      SameViewsSelf(objects, softOf, dev.Used(), dev.Soft(), dev.nand);
      Unmoved(objects, dev.nand, objects, dev.nand);
      ok := true;
      if dev.gcBlock < 1 {
        if i < 0 || i >= |dev.blocks| || dev.blocks[i].state != Full {
          return;
        }
        dev.ChooseGcBlock(i);
        gcChunk := 0;
        cleanups := [];
        EmptyList(objects);
      }
      ok := GcBlock(aggressive);
    }

    // ----- what the file operations do to chunks

    /** Every object but id holds what it held. */
    ghost predicate OthersSame(id: nat, os: map<nat, Object>, m: map<nat, Written>)
      reads this, dev
    {
      && (forall x | x in os && x != id && !os[x].softDeleted :: x in objects)
      && (forall x | x in objects && x != id :: x in os && SameView(os[x], m, objects[x], dev.nand))
    }

    /** yaffs_wr_data_obj after its collection step: chunk k of a file holds the new bytes and all else is as it was;
        the stored size is raised first, and stays so when no space can be had.
     */
    method WrDataObj(id: nat, k: nat, bytes: seq<int>, nBytes: nat, useReserve: bool) returns (chunk: int)
      requires Inv() && id in objects && !objects[id].softDeleted && k > 0
      modifies this`objects, dev
      ensures Inv() && objects.Keys == old(objects.Keys)
      ensures OthersSame(id, old(objects), old(dev.nand))
      ensures var o := Raised(old(objects[id]), k, nBytes, chunkBytes);
        if chunk < 0 then SameView(o, old(dev.nand), objects[id], dev.nand)
        else objects[id] == o.(chunks := objects[id].chunks, nData := objects[id].nData)
             && WroteChunk(o, old(dev.nand), objects[id], dev.nand, k, bytes, nBytes)
      ensures chunk >= 0 ==> chunk in dev.nand && objects[id].chunks[k] == chunk
                             && dev.nand[chunk].serial == var prev := ChunkAt(old(objects[id]), k);
                                                          if prev > 0 && prev in old(dev.nand) then old(dev.nand)[prev].serial + 1 else 1
    {
      hide InvWhile; hide SameView; hide SameChunk; hide Raised; hide WroteChunk;
      RaisedSize(objects[id], k, nBytes, chunkBytes);
      SetStoredSize(id, Raised(objects[id], k, nBytes, chunkBytes).storedSize);
      chunk := WriteData(id, k, bytes, nBytes, useReserve);
    }

    /** The write and the deletion of the old chunk. */
    method WriteData(id: nat, k: nat, bytes: seq<int>, nBytes: nat, useReserve: bool) returns (chunk: int)
      requires Inv() && id in objects && !objects[id].softDeleted && k > 0
      modifies this`objects, dev
      ensures Inv() && objects.Keys == old(objects.Keys)
      ensures OthersSame(id, old(objects), old(dev.nand))
      ensures var o := old(objects[id]);
        if chunk < 0 then SameView(o, old(dev.nand), objects[id], dev.nand)
        else objects[id] == o.(chunks := objects[id].chunks, nData := objects[id].nData)
             && WroteChunk(o, old(dev.nand), objects[id], dev.nand, k, bytes, nBytes)
      ensures chunk >= 0 ==> chunk in dev.nand && objects[id].chunks[k] == chunk
                             && dev.nand[chunk].serial == var prev := ChunkAt(old(objects[id]), k);
                                                          if prev > 0 && prev in old(dev.nand) then old(dev.nand)[prev].serial + 1 else 1
    {
      hide Linked; hide UsedChunks; hide SoftChunks; hide Kept; hide Recount; hide CountIn; hide AllOk; hide AllocOk;
      hide BlockOf; hide PageOf; hide Settled; hide Doomed; hide AllKnown; hide Moved; hide SameView; hide SameChunk;
      ghost var used, soft, nand, was := dev.Used(), dev.Soft(), dev.nand, objects;
      dev.SoftWithinUsed();
      OldOnFlash(objects, softOf, used, soft, nand, id, k);
      var prev := ChunkAt(objects[id], k);
      var serial := if prev > 0 then dev.nand[prev].serial + 1 else 1;
      chunk := Rewrite(id, k, Written(id, k, nBytes, serial, 0, Data(bytes)), useReserve, -1);
      if chunk < 0 {
        KeptSame(nand, dev.nand, used);
        SameViewsKept(was, softOf, used, soft, nand, objects, dev.nand);
      } else {
        OthersOfMoved(was, softOf, used, soft, nand, id, k, chunk, dev.Used(), dev.nand);
      }
    }

    /** yaffs_update_oh after its collection step: the object has a new header, with the stored size of a file that is
        not unlinked; a header that tells of a shrinking marks its block.
     */
    method UpdateHeader(id: nat, serial: nat, isShrink: bool, shadows: nat, rest: seq<int>, unlinked: bool) returns (chunk: int)
      requires Inv() && id in objects
      modifies this`objects, dev
      ensures Inv() && objects.Keys == old(objects.Keys) && OthersSame(id, old(objects), old(dev.nand))
      ensures chunk < 0 ==> SameView(old(objects[id]), old(dev.nand), objects[id], dev.nand)
      ensures chunk >= 0 ==>
        && objects[id] == old(objects[id]).(hdr := chunk) && chunk > 0 && chunk in dev.nand
        && dev.nand[chunk].serial == serial
        && dev.nand[chunk].payload == Header(if objects[id].isFile && !unlinked then objects[id].storedSize else 0, isShrink, shadows, rest)
        && (isShrink ==> var i := BlockOf(chunk, dev.per) - dev.start; 0 <= i < |dev.blocks| && dev.blocks[i].hasShrinkHdr)
        && (forall j | j in old(objects[id]).chunks :: SameChunk(old(dev.nand), old(objects[id]).chunks[j], dev.nand, objects[id].chunks[j]))
    {
      hide Linked; hide UsedChunks; hide SoftChunks; hide Kept; hide Recount; hide CountIn; hide AllOk; hide AllocOk;
      hide BlockOf; hide PageOf; hide Settled; hide Doomed; hide AllKnown; hide Moved; hide SameView; hide SameChunk;
      ghost var used, soft, nand, was := dev.Used(), dev.Soft(), dev.nand, objects;
      dev.SoftWithinUsed();
      var size := if objects[id].isFile && !unlinked then objects[id].storedSize else 0;
      chunk := Rewrite(id, 0, Written(id, 0, 0, serial, 0, Header(size, isShrink, shadows, rest)), objects[id].hdr > 0, -1);
      if chunk < 0 {
        KeptSame(nand, dev.nand, used);
        SameViewsKept(was, softOf, used, soft, nand, objects, dev.nand);
      } else {
        OthersOfMoved(was, softOf, used, soft, nand, id, 0, chunk, dev.Used(), dev.nand);
        DataChunksHaveNumbers(was, softOf, used, soft, nand, id);
        MovedUsed(id, 0, ChunkAt(was[id], 0), chunk, used, nand, dev.Used(), dev.nand);
        if isShrink {
          UsedBlock(dev.blocks, dev.start, dev.per, chunk);
          var i := BlockOf(chunk, dev.per) - dev.start;
          dev.SetFlags(i, dev.blocks[i].(hasShrinkHdr := true));
        }
      }
    }

    /** The step of yaffs_prune_chunks for one chunk past the new end of a file. */
    method DeleteChunk(id: nat, k: nat)
      requires Inv() && id in objects && k in objects[id].chunks
      modifies this`objects, dev
      ensures Inv() && objects == old(objects)[id := old(objects[id]).(chunks := old(objects[id]).chunks - {k}, nData := old(objects[id]).nData - 1)]
      ensures OthersSame(id, old(objects), old(dev.nand))
      ensures forall j | j in objects[id].chunks :: SameChunk(old(dev.nand), objects[id].chunks[j], dev.nand, objects[id].chunks[j])
      ensures objects[id].hdr > 0 ==> SameChunk(old(dev.nand), objects[id].hdr, dev.nand, objects[id].hdr)
    {
      hide Linked; hide UsedChunks; hide SoftChunks; hide Kept; hide Recount; hide CountIn; hide AllOk; hide AllocOk;
      hide BlockOf; hide PageOf; hide Doomed; hide AllKnown; hide SameView; hide SameChunk;
      ghost var used, soft, nand, was := dev.Used(), dev.Soft(), dev.nand, objects;
      dev.SoftWithinUsed();
      NotDoomed(objects, softOf, cleanups, used, soft, nand, id, k);
      OldIsTagged(objects, softOf, used, soft, nand, id, k);
      var c := objects[id].chunks[k];
      var o := objects[id].(chunks := objects[id].chunks - {k}, nData := objects[id].nData - 1);
      dev.ChunkDel(c);
      Deleted(objects, softOf, used, soft, nand, id, k, dev.Used(), dev.nand);
      OthersOfDeleted(was, softOf, used, soft, nand, id, k, dev.Used(), dev.nand);
      objects := objects[id := o];
      DoomedKept(was, objects, cleanups, id);
    }

    /** The invariant while the chunks of one object are being soft-deleted. */
    ghost predicate InvSoftening(id: nat)
      reads this, dev
    {
      && dev.Valid() && LinkedNow() && CollectingOnly(dev.blocks, -1) && SettledBut(objects, softOf, id)
    }

    /** yaffs_soft_del_chunk and the clearing of the reference. */
    method SoftDelOne(id: nat, k: nat)
      requires InvSoftening(id) && id in objects && k in objects[id].chunks
      modifies this`objects, this`softOf, dev
      ensures InvSoftening(id) && objects == old(objects)[id := old(objects[id]).(chunks := old(objects[id]).chunks - {k})]
      ensures dev.nand == old(dev.nand) && dev.Used() == old(dev.Used())
    {
      hide Linked; hide UsedChunks; hide SoftChunks; hide Kept; hide Recount; hide CountIn; hide AllOk; hide AllocOk; hide BlockOf; hide PageOf;
      var c := objects[id].chunks[k];
      SoftDeleted(objects, softOf, dev.Used(), dev.Soft(), dev.nand, id, k);
      KeysOf(objects, softOf, dev.Used(), dev.Soft(), dev.nand);
      dev.SoftDelChunk(c);
      softOf := softOf[id := softOf[id] + {c}];
      objects := objects[id := objects[id].(chunks := objects[id].chunks - {k})];
    }

    /** yaffs_soft_del_file on a deleted file: a file without data goes at once; otherwise its chunks stay in
        flash but count as free.
     */
    method SoftDelFile(id: nat)
      requires Inv() && id in objects && objects[id].isFile && !objects[id].softDeleted
      modifies this`objects, this`softOf, dev
      ensures Inv()
      ensures old(objects[id]).nData <= 0 ==> objects == old(objects) - {id} && OthersSame(id, old(objects), old(dev.nand))
      ensures old(objects[id]).nData > 0 ==> objects == old(objects)[id := old(objects[id]).(softDeleted := true, chunks := map[])]
                                             && dev.nand == old(dev.nand) && dev.Used() == old(dev.Used())
    {
      hide Linked; hide UsedChunks; hide SoftChunks; hide Kept; hide Recount; hide CountIn; hide AllOk; hide AllocOk;
      hide BlockOf; hide PageOf; hide Doomed; hide AllKnown; hide Settled; hide SameView;
      NotOnList(objects, cleanups, id);
      DataCount(objects, softOf, dev.Used(), dev.Soft(), dev.nand, id);
      if objects[id].nData <= 0 {
        DeleteObject(id);
      } else {
        SoftDelChunks(id);
      }
    }

    /** The chunks of a file, one after the other. */
    method SoftDelChunks(id: nat)
      requires Inv() && id in objects && !objects[id].softDeleted && id !in cleanups
      modifies this`objects, this`softOf, dev
      ensures Inv() && objects == old(objects)[id := old(objects[id]).(softDeleted := true, chunks := map[])]
      ensures dev.nand == old(dev.nand) && dev.Used() == old(dev.Used())
    {
      hide Linked; hide UsedChunks; hide SoftChunks; hide Kept; hide Recount; hide CountIn; hide AllOk; hide AllocOk;
      hide BlockOf; hide PageOf; hide Doomed; hide AllKnown; hide Settled; hide SettledBut;
      SettledMost(objects, softOf, id);
      while objects[id].chunks.Keys != {}
        invariant InvSoftening(id) && id in objects && objects == old(objects)[id := objects[id]]
        invariant objects[id] == old(objects[id]).(chunks := objects[id].chunks)
        invariant dev.nand == old(dev.nand) && dev.Used() == old(dev.Used())
        decreases objects[id].chunks.Keys
      {
        var k :| k in objects[id].chunks.Keys;
        SoftDelOne(id, k);
      }
      var o := objects[id].(softDeleted := true);
      Relabelled(objects, softOf, dev.Used(), dev.Soft(), dev.nand, id, o);
      assert o.chunks == map[];
      SettledAgain(objects, softOf, id, o);
      objects := objects[id := o];
      DoomedKept(old(objects), objects, cleanups, id);
    }

    /** The end of yaffs_resize_file_down: the stored size of a file is what it was cut to. */
    method SetStoredSize(id: nat, size: nat)
      requires Inv() && id in objects && !objects[id].softDeleted
      modifies this`objects
      ensures Inv() && objects == old(objects)[id := old(objects[id]).(storedSize := size)]
    {
      hide Linked; hide UsedChunks; hide SoftChunks; hide Recount; hide CountIn; hide AllOk; hide AllocOk;
      Relabelled(objects, softOf, dev.Used(), dev.Soft(), dev.nand, id, objects[id].(storedSize := size));
      objects := objects[id := objects[id].(storedSize := size)];
    }

    // ----- what the device does on its own

    /** yaffs_verify_blocks passes between operations, and while block i is being collected. */
    method VerifyBlocks(ghost i: int) returns (ok: bool)
      requires InvWhile(i)
      ensures ok
    {
      hide Linked; hide AllOk; hide AllocOk; hide PassesCheck; hide CountIn; hide Recount;
      ok := dev.VerifyBlocks(i);
    }

    /** Nothing changes but the flash, where chunks in use stay. */
    lemma FlashKept(used: iset<nat>, nand: map<nat, Written>)
      requires dev.Geometry() && Linked(objects, softOf, used, dev.Soft(), nand) && dev.Used() == used && Kept(nand, dev.nand, used)
      ensures LinkedNow() && SameViews(objects, nand, objects, dev.nand)
    {
      hide Linked; hide UsedChunks; hide SoftChunks; hide Kept; hide SameViews;
      KeptLinked(objects, softOf, used, dev.Soft(), nand, dev.nand);
      KeptSame(nand, dev.nand, used);
      SameViewsKept(objects, softOf, used, dev.Soft(), nand, objects, dev.nand);
    }

    /** yaffs_skip_rest_of_block, as at the end of a scan: the block being filled is closed. */
    method SkipRest()
      requires Inv()
      modifies dev
      ensures Inv() && SameViews(objects, old(dev.nand), objects, dev.nand) && dev.allocBlock <= 0
    {
      hide Linked; hide UsedChunks; hide SoftChunks; hide Kept; hide Recount; hide CountIn; hide AllOk; hide AllocOk; hide SameViews;
      hide BlockOf; hide PageOf; hide Settled; hide Doomed; hide AllKnown;
      SameViewsSelf(objects, softOf, dev.Used(), dev.Soft(), dev.nand);
      dev.SkipRestOfBlock();
    }

    /** yaffs2_checkpt_invalidate between operations. */
    method InvalidateCheckpt()
      requires Inv()
      modifies dev
      ensures Inv() && SameViews(objects, old(dev.nand), objects, dev.nand) && dev.blocksInCheckpt == 0 && !dev.isCheckpointed
      ensures CheckpointsDropped(old(dev.blocks), dev.blocks)
    {
      hide Linked; hide UsedChunks; hide SoftChunks; hide Kept; hide Recount; hide CountIn; hide AllOk; hide AllocOk; hide SameViews;
      hide BlockOf; hide PageOf; hide Settled; hide Doomed; hide AllKnown;
      ghost var used, nand := dev.Used(), dev.nand;
      dev.CheckptInvalidate(0);
      FlashKept(used, nand);
    }

    /** yaffs2_checkpt_save: the old checkpoint is erased, and erased blocks chosen for the new one. */
    method SaveCheckpt(chosen: seq<nat>) returns (ok: bool)
      requires Inv()
      modifies dev
      ensures Inv() && SameViews(objects, old(dev.nand), objects, dev.nand)
      ensures ok ==> dev.blocksInCheckpt == |chosen| && dev.isCheckpointed
    {
      hide Linked; hide UsedChunks; hide SoftChunks; hide Kept; hide Recount; hide CountIn; hide AllOk; hide AllocOk; hide SameViews;
      hide BlockOf; hide PageOf; hide Settled; hide Doomed; hide AllKnown;
      InvalidateCheckpt();
      ok := (forall k | 0 <= k < |chosen| :: chosen[k] < |dev.blocks| && dev.blocks[chosen[k]].state == Empty)
            && (forall k, l | 0 <= k < l < |chosen| :: chosen[k] != chosen[l]);
      if ok {
        dev.CheckptTake(chosen);
      }
    }
  }

  /** Object p on flash n holds what o holds on flash m, with new bytes in chunk k. */
  ghost predicate WroteChunk(o: Object, m: map<nat, Written>, p: Object, n: map<nat, Written>, k: nat, bytes: seq<int>, nBytes: nat) {
    && p.chunks.Keys == o.chunks.Keys + {k} && p.hdr == o.hdr
    && p.chunks[k] in n && n[p.chunks[k]].payload == Data(bytes) && n[p.chunks[k]].nBytes == nBytes
    && (forall j | j in o.chunks && j != k && j in p.chunks :: SameChunk(m, o.chunks[j], n, p.chunks[j]))
    && (o.hdr > 0 ==> SameChunk(m, o.hdr, n, p.hdr))
  }

  lemma OldOnFlash(objects: map<nat, Object>, softOf: SoftOf, used: iset<nat>, soft: iset<nat>, nand: map<nat, Written>, id: nat, k: nat)
    requires Linked(objects, softOf, used, soft, nand) && id in objects
    ensures var c := ChunkAt(objects[id], k); c > 0 ==> c in nand
  {
    OldIsTagged(objects, softOf, used, soft, nand, id, k);
  }

  lemma HeaderInUse(objects: map<nat, Object>, softOf: SoftOf, used: iset<nat>, soft: iset<nat>, nand: map<nat, Written>, id: nat)
    requires Linked(objects, softOf, used, soft, nand) && id in objects
    ensures objects[id].hdr > 0 ==> objects[id].hdr in used && objects[id].hdr !in soft
  {
    OldIsTagged(objects, softOf, used, soft, nand, id, 0);
  }

  lemma RaisedSize(o: Object, k: nat, nBytes: nat, chunkBytes: nat)
    requires k > 0
    ensures var p := Raised(o, k, nBytes, chunkBytes); p == o.(storedSize := p.storedSize)
  {
  }

  lemma {:induction false} KeptBoth(m: map<nat, Written>, l: map<nat, Written>, n: map<nat, Written>, used: iset<nat>, used': iset<nat>, chunk: nat)
    requires Kept(m, l, used) && Kept(l, n, used') && chunk in used' && chunk in l
    ensures forall c | c in used && c in used' :: Same(m, n, c)
    ensures chunk in n && n[chunk] == l[chunk]
  {
    forall c | c in used && c in used' ensures Same(m, n, c) {
      assert Same(m, l, c) && Same(l, n, c);
    }
    assert Same(l, n, chunk);
  }

  lemma {:induction false} SoftOwner(objects: map<nat, Object>, softOf: SoftOf, used: iset<nat>, soft: iset<nat>, nand: map<nat, Written>, c: nat)
    requires Linked(objects, softOf, used, soft, nand) && Settled(objects, softOf)
    requires c in used && c in nand && nand[c].objId in objects && nand[c].chunkId > 0
    ensures if objects[nand[c].objId].softDeleted then
              c in soft && c in softOf[nand[c].objId] && objects[nand[c].objId].nData > 0
            else c !in soft && nand[c].chunkId in objects[nand[c].objId].chunks && objects[nand[c].objId].chunks[nand[c].chunkId] == c
  {
    assert ChunkOwned(c, objects, softOf, soft, nand);
    var id := nand[c].objId;
    assert ObjectOk(id, objects[id], softOf[id], used, soft, nand);
  }

  lemma KeptSame(m: map<nat, Written>, n: map<nat, Written>, used: iset<nat>)
    requires Kept(m, n, used)
    ensures forall c | c in used :: Same(m, n, c)
  {
  }

  lemma DataCount(objects: map<nat, Object>, softOf: SoftOf, used: iset<nat>, soft: iset<nat>, nand: map<nat, Written>, id: nat)
    requires Linked(objects, softOf, used, soft, nand) && id in objects
    ensures objects[id].nData >= 0
    ensures objects[id].nData == 0 ==> objects[id].chunks == map[] && softOf[id] == {}
  {
    assert ObjectOk(id, objects[id], softOf[id], used, soft, nand);
  }

  lemma {:induction false} CopyOwner(objects: map<nat, Object>, softOf: SoftOf, used: iset<nat>, soft: iset<nat>, nand: map<nat, Written>, c: nat)
    requires Linked(objects, softOf, used, soft, nand) && Settled(objects, softOf) && c > 0
    requires c in used && c in nand && nand[c].objId in objects && (nand[c].chunkId > 0 ==> !objects[nand[c].objId].softDeleted)
    ensures ChunkAt(objects[nand[c].objId], nand[c].chunkId) == c
  {
    assert ChunkOwned(c, objects, softOf, soft, nand);
    if nand[c].chunkId > 0 { SoftOwner(objects, softOf, used, soft, nand, c); }
  }

  lemma Owner(objects: map<nat, Object>, softOf: SoftOf, used: iset<nat>, soft: iset<nat>, nand: map<nat, Written>, c: nat)
    requires Linked(objects, softOf, used, soft, nand) && c in used
    ensures c in nand && nand[c].objId in objects
  {
    assert ChunkOwned(c, objects, softOf, soft, nand);
  }

  lemma {:induction false} SameViewsSelf(objects: map<nat, Object>, softOf: SoftOf, used: iset<nat>, soft: iset<nat>, nand: map<nat, Written>)
    requires Linked(objects, softOf, used, soft, nand)
    ensures SameViews(objects, nand, objects, nand)
  {
    SameViewsKept(objects, softOf, used, soft, nand, objects, nand);
  }

  lemma BitsBelow(blocks: seq<BlockInfo>, soft: seq<set<nat>>, per: nat, i: nat)
    requires AllOk(blocks, soft, per) && i < |blocks|
    ensures forall p | p in blocks[i].bits :: p < per
  {
    assert BlockOk(blocks[i], soft[i], per);
  }

  lemma {:induction false} BitIsUsed(blocks: seq<BlockInfo>, start: nat, per: nat, i: nat, p: nat)
    requires i < |blocks| && p in blocks[i].bits && p < per
    ensures var c := ChunkOf(start + i, p, per);
      c in UsedChunks(blocks, start, per) && BlockOf(c, per) == start + i && PageOf(c, per) == p
  {
    hide ChunkOf; hide BlockOf; hide PageOf;
    ChunkParts(start + i, p, per);
  }

  lemma WrittenAt(o: Object, k: nat, chunk: nat)
    ensures ChunkAt(WithChunk(o, k, chunk), k) == chunk
  {
  }

  lemma EmptyList(objects: map<nat, Object>)
    ensures Doomed(objects, [], 0) && AllKnown(objects, [])
  {
  }

  lemma RemovedSettled(objects: map<nat, Object>, softOf: SoftOf, ids: seq<nat>, id: nat)
    requires Settled(objects, softOf) && Doomed(objects, ids, 0) && AllKnown(objects, ids) && id !in ids
    ensures Settled(objects - {id}, softOf - {id}) && Doomed(objects - {id}, ids, 0) && AllKnown(objects - {id}, ids)
  {
  }

  lemma SameViewsLess(os: map<nat, Object>, m: map<nat, Written>, ps: map<nat, Object>, n: map<nat, Written>, id: nat)
    requires id in os && os[id].softDeleted && ps == os - {id} && forall x | x in ps :: SameView(os[x], m, ps[x], n)
    ensures SameViews(os, m, ps, n)
  {
    hide SameView;
  }

  lemma {:induction false} SameViewsRemoved(objects: map<nat, Object>, softOf: SoftOf, used: iset<nat>, soft: iset<nat>, m: map<nat, Written>,
                                            id: nat, used': iset<nat>, n: map<nat, Written>)
    requires Linked(objects, softOf, used, soft, m) && id in objects
    requires used' == used - (if objects[id].hdr > 0 then iset{objects[id].hdr} else iset{}) && Kept(m, n, used')
    ensures forall x | x in objects && x != id :: SameView(objects[x], m, objects[x], n)
  {
    hide SameView; hide Kept;
    OldIsTagged(objects, softOf, used, soft, m, id, 0);
    KeptSame(m, n, used');
    forall x | x in objects && x != id ensures SameView(objects[x], m, objects[x], n) {
      SameViewKept(x, objects[x], objects[x], softOf[x], used, soft, m, n);
    }
  }

  lemma {:induction false} NothingUsed(blocks: seq<BlockInfo>, soft: seq<set<nat>>, start: nat, per: nat, i: nat)
    requires per > 0 && AllOk(blocks, soft, per) && i < |blocks| && blocks[i].state in {Empty, Dead}
    ensures forall c | c in UsedChunks(blocks, start, per) :: BlockOf(c, per) != start + i
  {
    assert BlockOk(blocks[i], soft[i], per);
  }

  /** What a rewrite of chunk k of one object leaves alone. */
  lemma {:induction false} OthersOfMoved(
    objects: map<nat, Object>, softOf: SoftOf, used: iset<nat>, soft: iset<nat>, m: map<nat, Written>,
    id: nat, k: nat, new_: nat, used': iset<nat>, n: map<nat, Written>)
    requires Linked(objects, softOf, used, soft, m) && id in objects && 0 !in used
    requires Moved(id, k, ChunkAt(objects[id], k), new_, used, m, used', n)
    ensures forall x | x in objects && x != id :: SameView(objects[x], m, objects[x], n)
    ensures forall j | j in objects[id].chunks && j != k :: SameChunk(m, objects[id].chunks[j], n, objects[id].chunks[j])
    ensures k > 0 && objects[id].hdr > 0 ==> SameChunk(m, objects[id].hdr, n, objects[id].hdr)
  {
    hide SoftsOk; hide SameView; hide Same; hide SameChunk;
    var o := objects[id];
    OldIsTagged(objects, softOf, used, soft, m, id, k);
    OldIsTagged(objects, softOf, used, soft, m, id, 0);
    MovedStays(id, k, ChunkAt(o, k), new_, used, soft, m, used', n);
    forall x | x in objects && x != id ensures SameView(objects[x], m, objects[x], n) {
      SameViewKept(x, objects[x], objects[x], softOf[x], used, soft, m, n);
    }
    forall j | j in o.chunks && j != k ensures SameChunk(m, o.chunks[j], n, o.chunks[j]) {
      assert RefOk(o.chunks[j], id, j, used, soft, m);
      SameChunkKept(m, n, o.chunks[j]);
    }
    if k > 0 && o.hdr > 0 { SameChunkKept(m, n, o.hdr); }
  }

  lemma KeysOf(objects: map<nat, Object>, softOf: SoftOf, used: iset<nat>, soft: iset<nat>, nand: map<nat, Written>)
    requires Linked(objects, softOf, used, soft, nand)
    ensures softOf.Keys == objects.Keys
  {
  }

  lemma MovedUsed(id: nat, k: nat, old_: nat, new_: nat, used: iset<nat>, m: map<nat, Written>, used': iset<nat>, n: map<nat, Written>)
    requires Moved(id, k, old_, new_, used, m, used', n)
    ensures new_ in used' && new_ > 0
  {
  }

  lemma UsedBlock(blocks: seq<BlockInfo>, start: nat, per: nat, c: nat)
    requires per > 0 && c in UsedChunks(blocks, start, per)
    ensures start <= BlockOf(c, per) < start + |blocks|
  {
  }

  lemma DataChunksHaveNumbers(objects: map<nat, Object>, softOf: SoftOf, used: iset<nat>, soft: iset<nat>, nand: map<nat, Written>, id: nat)
    requires Linked(objects, softOf, used, soft, nand) && id in objects
    ensures 0 !in objects[id].chunks
  {
    assert ObjectOk(id, objects[id], softOf[id], used, soft, nand);
  }

  lemma NotDoomed(objects: map<nat, Object>, softOf: SoftOf, ids: seq<nat>, used: iset<nat>, soft: iset<nat>, nand: map<nat, Written>, id: nat, k: nat)
    requires Linked(objects, softOf, used, soft, nand) && id in objects && k in objects[id].chunks && Doomed(objects, ids, 0)
    ensures id !in ids
  {
    DataCount(objects, softOf, used, soft, nand, id);
  }

  lemma NotOnList(objects: map<nat, Object>, ids: seq<nat>, id: nat)
    requires Doomed(objects, ids, 0) && id in objects && !objects[id].softDeleted
    ensures id !in ids
  {
  }

  lemma DoomedKept(objects: map<nat, Object>, ps: map<nat, Object>, ids: seq<nat>, id: nat)
    requires Doomed(objects, ids, 0) && AllKnown(objects, ids) && id !in ids && ps.Keys == objects.Keys
    requires forall x | x in ps && x != id :: ps[x] == objects[x]
    ensures Doomed(ps, ids, 0) && AllKnown(ps, ids)
  {
  }

  lemma {:induction false} OthersOfDeleted(
    objects: map<nat, Object>, softOf: SoftOf, used: iset<nat>, soft: iset<nat>, m: map<nat, Written>,
    id: nat, k: nat, used': iset<nat>, n: map<nat, Written>)
    requires Linked(objects, softOf, used, soft, m) && id in objects && k in objects[id].chunks
    requires used' == used - iset{objects[id].chunks[k]} && Kept(m, n, used')
    ensures forall x | x in objects && x != id :: SameView(objects[x], m, objects[x], n)
    ensures forall j | j in objects[id].chunks && j != k :: SameChunk(m, objects[id].chunks[j], n, objects[id].chunks[j])
    ensures objects[id].hdr > 0 ==> SameChunk(m, objects[id].hdr, n, objects[id].hdr)
  {
    hide SoftsOk; hide SameView; hide SameChunk; hide Kept;
    var o := objects[id];
    OldIsTagged(objects, softOf, used, soft, m, id, k);
    OldIsTagged(objects, softOf, used, soft, m, id, 0);
    DataChunksHaveNumbers(objects, softOf, used, soft, m, id);
    KeptSame(m, n, used');
    if o.hdr > 0 { SameChunkKept(m, n, o.hdr); }
    forall x | x in objects && x != id ensures SameView(objects[x], m, objects[x], n) {
      SameViewKept(x, objects[x], objects[x], softOf[x], used, soft, m, n);
    }
    forall j | j in o.chunks && j != k ensures SameChunk(m, o.chunks[j], n, o.chunks[j]) {
      assert RefOk(o.chunks[j], id, j, used, soft, m);
      SameChunkKept(m, n, o.chunks[j]);
    }
  }

  /** Settled, but for one object. */
  ghost predicate SettledBut(objects: map<nat, Object>, softOf: SoftOf, but: nat) {
    forall id | id in objects && id in softOf && id != but :: if objects[id].softDeleted then objects[id].chunks == map[] else softOf[id] == {}
  }

  lemma SettledMost(objects: map<nat, Object>, softOf: SoftOf, id: nat)
    requires Settled(objects, softOf)
    ensures SettledBut(objects, softOf, id)
  {
  }

  lemma SettledAgain(objects: map<nat, Object>, softOf: SoftOf, id: nat, o: Object)
    requires SettledBut(objects, softOf, id) && o.softDeleted && o.chunks == map[]
    ensures Settled(objects[id := o], softOf)
  {
  }

  lemma SoftCollected(objects: map<nat, Object>, softOf: SoftOf, ids: seq<nat>, id: nat, o: Object, mine: set<nat>)
    requires Settled(objects, softOf) && Doomed(objects, ids, 0) && AllKnown(objects, ids) && id in objects && id in softOf
    requires objects[id].softDeleted && objects[id].nData > 0 && o == objects[id].(nData := o.nData)
    ensures Settled(objects[id := o], softOf[id := mine]) && Doomed(objects[id := o], ids, 0) && AllKnown(objects[id := o], ids)
    ensures o.nData == 0 ==> Doomed(objects[id := o], ids + [id], 0) && AllKnown(objects[id := o], ids + [id])
  {
  }

  lemma RewrittenSettled(objects: map<nat, Object>, softOf: SoftOf, ids: seq<nat>, id: nat, k: nat, c: nat)
    requires Settled(objects, softOf) && Doomed(objects, ids, 0) && AllKnown(objects, ids) && id in objects
    requires k > 0 ==> !objects[id].softDeleted
    ensures var ps := objects[id := WithChunk(objects[id], k, c)]; Settled(ps, softOf) && Doomed(ps, ids, 0) && AllKnown(ps, ids)
  {
  }
}
