/** Which object owns which chunk: every chunk in use is owned exactly once, and its tags say by whom. */
module References {
  import opened FlashBlocks

  /** The parts of struct yaffs_obj that refer to chunks; hdr 0 is no header. */
  datatype Object = Object(hdr: nat, chunks: map<nat, nat>, softDeleted: bool, nData: int, isFile: bool, storedSize: nat)

  ghost predicate Tagged(nand: map<nat, Written>, c: nat, id: nat, k: nat) {
    c in nand && nand[c].objId == id && nand[c].chunkId == k
  }

  /** The soft-deleted chunks of each object. */
  type SoftOf = map<nat, set<nat>>

  ghost predicate ChunkOwned(c: nat, objects: map<nat, Object>, softOf: SoftOf, soft: iset<nat>, nand: map<nat, Written>) {
    && c in nand && nand[c].objId in objects && nand[c].objId in softOf
    && var o := objects[nand[c].objId];
       if nand[c].chunkId == 0 then o.hdr == c && c !in soft
       else if c in soft then c in softOf[nand[c].objId]
       else nand[c].chunkId in o.chunks && o.chunks[nand[c].chunkId] == c
  }

  ghost predicate RefOk(c: nat, id: nat, k: nat, used: iset<nat>, soft: iset<nat>, nand: map<nat, Written>) {
    c > 0 && c in used && c !in soft && Tagged(nand, c, id, k)
  }

  ghost predicate SoftRefOk(c: nat, id: nat, used: iset<nat>, soft: iset<nat>, nand: map<nat, Written>) {
    c > 0 && c in used && c in soft && c in nand && nand[c].objId == id && nand[c].chunkId > 0
  }

  ghost predicate RefsOk(id: nat, chunks: map<nat, nat>, used: iset<nat>, soft: iset<nat>, nand: map<nat, Written>) {
    forall k | k in chunks :: k > 0 && RefOk(chunks[k], id, k, used, soft, nand)
  }

  ghost predicate SoftsOk(id: nat, mine: set<nat>, used: iset<nat>, soft: iset<nat>, nand: map<nat, Written>) {
    forall c | c in mine :: SoftRefOk(c, id, used, soft, nand)
  }

  ghost predicate ObjectOk(id: nat, o: Object, mine: set<nat>, used: iset<nat>, soft: iset<nat>, nand: map<nat, Written>) {
    && RefsOk(id, o.chunks, used, soft, nand)
    && (o.hdr > 0 ==> RefOk(o.hdr, id, 0, used, soft, nand))
    && SoftsOk(id, mine, used, soft, nand)
    && o.nData == |o.chunks.Keys| + |mine|
  }

  /** Chunk bits and references agree, in both directions. */
  ghost predicate Linked(objects: map<nat, Object>, softOf: SoftOf, used: iset<nat>, soft: iset<nat>, nand: map<nat, Written>) {
    && softOf.Keys == objects.Keys
    && (forall c | c in used :: ChunkOwned(c, objects, softOf, soft, nand))
    && (forall id | id in objects :: ObjectOk(id, objects[id], softOf[id], used, soft, nand))
  }

  /** No two references lead to one chunk. */
  lemma OneOwner(objects: map<nat, Object>, softOf: SoftOf, used: iset<nat>, soft: iset<nat>, nand: map<nat, Written>,
                 a: nat, k: nat, b: nat, l: nat)
    requires Linked(objects, softOf, used, soft, nand)
    requires a in objects && k in objects[a].chunks && b in objects && l in objects[b].chunks
    requires objects[a].chunks[k] == objects[b].chunks[l]
    ensures a == b && k == l
    ensures objects[a].chunks[k] != objects[b].hdr
  {
    assert ObjectOk(a, objects[a], softOf[a], used, soft, nand) && ObjectOk(b, objects[b], softOf[b], used, soft, nand);
    assert RefOk(objects[a].chunks[k], a, k, used, soft, nand) && RefOk(objects[b].chunks[l], b, l, used, soft, nand);
  }

  /** Chunk c stays as it is. */
  ghost predicate Stays(c: nat, used: iset<nat>, soft: iset<nat>, nand: map<nat, Written>,
                        used': iset<nat>, soft': iset<nat>, nand': map<nat, Written>) {
    c in used && c in used' && Same(nand, nand', c) && (c in soft <==> c in soft')
  }

  lemma RefStays(c: nat, id: nat, k: nat, used: iset<nat>, soft: iset<nat>, nand: map<nat, Written>,
                 used': iset<nat>, soft': iset<nat>, nand': map<nat, Written>)
    requires RefOk(c, id, k, used, soft, nand) && Stays(c, used, soft, nand, used', soft', nand')
    ensures RefOk(c, id, k, used', soft', nand')
  {
  }

  lemma {:induction false} RefsStay(id: nat, m: map<nat, nat>, m': map<nat, nat>, used: iset<nat>, soft: iset<nat>, nand: map<nat, Written>,
                                    used': iset<nat>, soft': iset<nat>, nand': map<nat, Written>)
    requires RefsOk(id, m, used, soft, nand) && forall k | k in m' :: k in m && m'[k] == m[k]
    requires forall k | k in m' :: Stays(m'[k], used, soft, nand, used', soft', nand')
    ensures RefsOk(id, m', used', soft', nand')
  {
    hide RefOk; hide Stays;
    forall k | k in m' ensures RefOk(m'[k], id, k, used', soft', nand') {
      RefStays(m'[k], id, k, used, soft, nand, used', soft', nand');
    }
  }

  lemma SoftStays(c: nat, id: nat, used: iset<nat>, soft: iset<nat>, nand: map<nat, Written>,
                  used': iset<nat>, soft': iset<nat>, nand': map<nat, Written>)
    requires SoftRefOk(c, id, used, soft, nand) && Stays(c, used, soft, nand, used', soft', nand')
    ensures SoftRefOk(c, id, used', soft', nand')
  {
  }

  lemma {:induction false} SoftsStay(id: nat, mine: set<nat>, mine': set<nat>, used: iset<nat>, soft: iset<nat>, nand: map<nat, Written>,
                                     used': iset<nat>, soft': iset<nat>, nand': map<nat, Written>)
    requires SoftsOk(id, mine, used, soft, nand) && mine' <= mine
    requires forall c | c in mine' :: Stays(c, used, soft, nand, used', soft', nand')
    ensures SoftsOk(id, mine', used', soft', nand')
  {
    hide SoftRefOk; hide Stays;
    forall c | c in mine' ensures SoftRefOk(c, id, used', soft', nand') {
      SoftStays(c, id, used, soft, nand, used', soft', nand');
    }
  }

  /** All chunks of the object stay. */
  lemma {:induction false} ObjectStays(id: nat, o: Object, mine: set<nat>, used: iset<nat>, soft: iset<nat>, nand: map<nat, Written>,
                                       used': iset<nat>, soft': iset<nat>, nand': map<nat, Written>)
    requires ObjectOk(id, o, mine, used, soft, nand)
    requires forall c | c in used && c in nand && nand[c].objId == id :: Stays(c, used, soft, nand, used', soft', nand')
    ensures ObjectOk(id, o, mine, used', soft', nand')
  {
    hide Stays; hide Same;
    RefsStay(id, o.chunks, o.chunks, used, soft, nand, used', soft', nand');
    if o.hdr > 0 { RefStays(o.hdr, id, 0, used, soft, nand, used', soft', nand'); }
    SoftsStay(id, mine, mine, used, soft, nand, used', soft', nand');
  }

  /** What belongs to others does not change. */
  ghost predicate OnlyOf(id: nat, used: iset<nat>, soft: iset<nat>, nand: map<nat, Written>,
                         used': iset<nat>, soft': iset<nat>, nand': map<nat, Written>) {
    && (forall c | c in used' && c in nand' && nand'[c].objId != id :: Stays(c, used, soft, nand, used', soft', nand'))
    && (forall c | c in used && c in nand && nand[c].objId != id :: Stays(c, used, soft, nand, used', soft', nand'))
  }

  lemma OwnedStays(c: nat, id: nat, objects: map<nat, Object>, softOf: SoftOf, o: Object, mine: set<nat>,
                   used: iset<nat>, soft: iset<nat>, nand: map<nat, Written>, used': iset<nat>, soft': iset<nat>, nand': map<nat, Written>)
    requires ChunkOwned(c, objects, softOf, soft, nand) && Stays(c, used, soft, nand, used', soft', nand') && nand[c].objId != id
    ensures ChunkOwned(c, objects[id := o], softOf[id := mine], soft', nand')
  {
  }

  /** One object and chunks tagged with its number change; references stay right if its own are. */
  lemma {:induction false} ReplaceObject(
    objects: map<nat, Object>, softOf: SoftOf, used: iset<nat>, soft: iset<nat>, nand: map<nat, Written>,
    id: nat, o: Object, mine: set<nat>, used': iset<nat>, soft': iset<nat>, nand': map<nat, Written>)
    requires Linked(objects, softOf, used, soft, nand)
    requires OnlyOf(id, used, soft, nand, used', soft', nand')
    requires ObjectOk(id, o, mine, used', soft', nand')
    requires forall c | c in used' :: c in nand' && (nand'[c].objId == id ==> ChunkOwned(c, objects[id := o], softOf[id := mine], soft', nand'))
    ensures Linked(objects[id := o], softOf[id := mine], used', soft', nand')
  {
    hide ObjectOk; hide ChunkOwned;
    var os, ss := objects[id := o], softOf[id := mine];
    forall c | c in used' ensures ChunkOwned(c, os, ss, soft', nand') {
      if nand'[c].objId != id {
        OwnedStays(c, id, objects, softOf, o, mine, used, soft, nand, used', soft', nand');
      }
    }
    forall x | x in os ensures ObjectOk(x, os[x], ss[x], used', soft', nand') {
      if x != id {
        ObjectStays(x, objects[x], softOf[x], used, soft, nand, used', soft', nand');
      }
    }
  }

  /** Writes elsewhere and erasures of unused blocks do not disturb references. */
  lemma {:induction false} KeptLinked(objects: map<nat, Object>, softOf: SoftOf, used: iset<nat>, soft: iset<nat>,
                                      nand: map<nat, Written>, nand': map<nat, Written>)
    requires Linked(objects, softOf, used, soft, nand) && Kept(nand, nand', used)
    ensures Linked(objects, softOf, used, soft, nand')
  {
    hide ObjectOk;
    forall c | c in used ensures ChunkOwned(c, objects, softOf, soft, nand') {
      assert ChunkOwned(c, objects, softOf, soft, nand) && Same(nand, nand', c);
    }
    forall id | id in objects ensures ObjectOk(id, objects[id], softOf[id], used, soft, nand') {
      ObjectStays(id, objects[id], softOf[id], used, soft, nand, used, soft, nand');
    }
  }

  // ----- the changes the file system makes

  /** Object o with chunk k, or its header for k = 0, at NAND chunk c. */
  function WithChunk(o: Object, k: nat, c: nat): Object {
    if k == 0 then o.(hdr := c)
    else o.(chunks := o.chunks[k := c], nData := if k in o.chunks then o.nData else o.nData + 1)
  }

  function ChunkAt(o: Object, k: nat): nat {
    if k == 0 then o.hdr else if k in o.chunks then o.chunks[k] else 0
  }

  lemma OldIsTagged(objects: map<nat, Object>, softOf: SoftOf, used: iset<nat>, soft: iset<nat>, nand: map<nat, Written>, id: nat, k: nat)
    requires Linked(objects, softOf, used, soft, nand) && id in objects
    ensures var c := ChunkAt(objects[id], k); c > 0 ==> RefOk(c, id, k, used, soft, nand)
    ensures ObjectOk(id, objects[id], softOf[id], used, soft, nand)
  {
    assert ObjectOk(id, objects[id], softOf[id], used, soft, nand);
  }

  /** The state after chunk k of object id was written to new_ and its old place, if any, was given up. */
  ghost predicate Moved(id: nat, k: nat, old_: nat, new_: nat, used: iset<nat>, nand: map<nat, Written>,
                        used': iset<nat>, nand': map<nat, Written>) {
    && new_ > 0 && new_ !in used && new_ in used' && Tagged(nand', new_, id, k)
    && used' == used + iset{new_} - iset{old_} && 0 !in used
    && (forall c | c in used && c in used' :: Same(nand, nand', c))
  }

  lemma {:induction false} MovedStays(id: nat, k: nat, old_: nat, new_: nat, used: iset<nat>, soft: iset<nat>, nand: map<nat, Written>,
                                      used': iset<nat>, nand': map<nat, Written>)
    requires Moved(id, k, old_, new_, used, nand, used', nand')
    ensures forall c | c in used && c != old_ :: Stays(c, used, soft, nand, used', soft, nand')
    ensures forall c | c in used' && c != new_ :: Stays(c, used, soft, nand, used', soft, nand')
  {
  }

  lemma {:induction false} MovedRefs(id: nat, o: Object, k: nat, new_: nat, used: iset<nat>, soft: iset<nat>, nand: map<nat, Written>,
                                     used': iset<nat>, nand': map<nat, Written>)
    requires RefsOk(id, o.chunks, used, soft, nand) && soft <= used
    requires Moved(id, k, ChunkAt(o, k), new_, used, nand, used', nand')
    requires ChunkAt(o, k) > 0 ==> RefOk(ChunkAt(o, k), id, k, used, soft, nand)
    ensures RefsOk(id, WithChunk(o, k, new_).chunks, used', soft, nand')
  {
    hide Stays; hide Same;
    MovedStays(id, k, ChunkAt(o, k), new_, used, soft, nand, used', nand');
    var m := o.chunks - {k};
    forall j | j in m ensures Stays(m[j], used, soft, nand, used', soft, nand') {
      assert RefOk(o.chunks[j], id, j, used, soft, nand);
    }
    RefsStay(id, o.chunks, m, used, soft, nand, used', soft, nand');
    var n := WithChunk(o, k, new_).chunks;
    forall j | j in n ensures j > 0 && RefOk(n[j], id, j, used', soft, nand') {
      assert j != k ==> j in m && n[j] == m[j] && j > 0;
    }
  }

  lemma {:induction false} MovedSofts(id: nat, mine: set<nat>, k: nat, old_: nat, new_: nat, used: iset<nat>, soft: iset<nat>,
                                      nand: map<nat, Written>, used': iset<nat>, nand': map<nat, Written>)
    requires SoftsOk(id, mine, used, soft, nand) && Moved(id, k, old_, new_, used, nand, used', nand') && old_ !in soft
    ensures SoftsOk(id, mine, used', soft, nand')
  {
    hide Stays; hide Same; hide Moved;
    MovedStays(id, k, old_, new_, used, soft, nand, used', nand');
    forall c | c in mine ensures c in used && c != old_ {
      assert SoftRefOk(c, id, used, soft, nand);
    }
    SoftsStay(id, mine, mine, used, soft, nand, used', soft, nand');
  }

  lemma {:induction false} MovedHeader(id: nat, o: Object, k: nat, new_: nat, used: iset<nat>, soft: iset<nat>, nand: map<nat, Written>,
                                       used': iset<nat>, nand': map<nat, Written>)
    requires o.hdr > 0 ==> RefOk(o.hdr, id, 0, used, soft, nand)
    requires ChunkAt(o, k) > 0 ==> RefOk(ChunkAt(o, k), id, k, used, soft, nand)
    requires soft <= used && Moved(id, k, ChunkAt(o, k), new_, used, nand, used', nand')
    ensures var h := WithChunk(o, k, new_).hdr; h > 0 ==> RefOk(h, id, 0, used', soft, nand')
  {
    MovedStays(id, k, ChunkAt(o, k), new_, used, soft, nand, used', nand');
    if o.hdr > 0 && k > 0 {
      hide Stays; hide Same;
      RefStays(o.hdr, id, 0, used, soft, nand, used', soft, nand');
    }
  }

  lemma {:induction false} MovedObject(id: nat, o: Object, mine: set<nat>, k: nat, new_: nat, used: iset<nat>, soft: iset<nat>,
                                       nand: map<nat, Written>, used': iset<nat>, nand': map<nat, Written>)
    requires ObjectOk(id, o, mine, used, soft, nand) && soft <= used && 0 !in used
    requires Moved(id, k, ChunkAt(o, k), new_, used, nand, used', nand')
    ensures ObjectOk(id, WithChunk(o, k, new_), mine, used', soft, nand')
  {
    hide Moved; hide SoftsOk; hide WithChunk;
    var old_ := ChunkAt(o, k);
    assert old_ > 0 ==> RefOk(old_, id, k, used, soft, nand);
    assert old_ !in soft;
    hide RefsOk; hide RefOk; hide ChunkAt;
    MovedRefs(id, o, k, new_, used, soft, nand, used', nand');
    MovedHeader(id, o, k, new_, used, soft, nand, used', nand');
    MovedSofts(id, mine, k, old_, new_, used, soft, nand, used', nand');
    WithChunkCount(o, k, new_);
  }

  lemma WithChunkCount(o: Object, k: nat, c: nat)
    ensures var n := WithChunk(o, k, c); n.nData - |n.chunks.Keys| == o.nData - |o.chunks.Keys|
  {
    if k > 0 {
      assert WithChunk(o, k, c).chunks.Keys == o.chunks.Keys + {k};
    }
  }

  /** A chunk or header was rewritten: the new copy in use, the old one, if any, deleted. */
  lemma {:induction false} Rewritten(
    objects: map<nat, Object>, softOf: SoftOf, used: iset<nat>, soft: iset<nat>, nand: map<nat, Written>,
    id: nat, k: nat, new_: nat, used': iset<nat>, nand': map<nat, Written>)
    requires Linked(objects, softOf, used, soft, nand) && id in objects && soft <= used
    requires Moved(id, k, ChunkAt(objects[id], k), new_, used, nand, used', nand')
    ensures Linked(objects[id := WithChunk(objects[id], k, new_)], softOf, used', soft, nand')
  {
    hide ObjectOk; hide RefsOk; hide SoftsOk;
    var o := objects[id];
    var old_ := ChunkAt(o, k);
    OldIsTagged(objects, softOf, used, soft, nand, id, k);
    MovedStays(id, k, old_, new_, used, soft, nand, used', nand');
    MovedObject(id, o, softOf[id], k, new_, used, soft, nand, used', nand');
    assert softOf[id := softOf[id]] == softOf;
    var os := objects[id := WithChunk(o, k, new_)];
    forall c | c in used' ensures c in nand' && (nand'[c].objId == id ==> ChunkOwned(c, os, softOf, soft, nand')) {
      if c != new_ {
        assert ChunkOwned(c, objects, softOf, soft, nand) && Stays(c, used, soft, nand, used', soft, nand');
      }
    }
    ReplaceObject(objects, softOf, used, soft, nand, id, WithChunk(o, k, new_), softOf[id], used', soft, nand');
  }

  lemma {:induction false} KeptStays(used: iset<nat>, soft: iset<nat>, nand: map<nat, Written>,
                                     used': iset<nat>, soft': iset<nat>, nand': map<nat, Written>)
    requires used' <= used && Kept(nand, nand', used') && forall c | c in used' :: c in soft <==> c in soft'
    ensures forall c | c in used' :: Stays(c, used, soft, nand, used', soft', nand')
  {
  }

  /** A data chunk of a file was deleted. */
  lemma {:induction false} Deleted(
    objects: map<nat, Object>, softOf: SoftOf, used: iset<nat>, soft: iset<nat>, nand: map<nat, Written>,
    id: nat, k: nat, used': iset<nat>, nand': map<nat, Written>)
    requires Linked(objects, softOf, used, soft, nand) && id in objects && k in objects[id].chunks
    requires used' == used - iset{objects[id].chunks[k]} && Kept(nand, nand', used')
    ensures var o := objects[id];
      Linked(objects[id := o.(chunks := o.chunks - {k}, nData := o.nData - 1)], softOf, used', soft, nand')
  {
    hide ObjectOk; hide RefsOk; hide SoftsOk; hide Kept;
    var o := objects[id];
    var gone := o.chunks[k];
    var n := o.(chunks := o.chunks - {k}, nData := o.nData - 1);
    OldIsTagged(objects, softOf, used, soft, nand, id, k);
    DeletedObject(id, o, softOf[id], k, used, soft, nand, used', nand');
    KeptStays(used, soft, nand, used', soft, nand');
    var os := objects[id := n];
    forall c | c in used' ensures c in nand' && (nand'[c].objId == id ==> ChunkOwned(c, os, softOf, soft, nand')) {
      assert ChunkOwned(c, objects, softOf, soft, nand) && Stays(c, used, soft, nand, used', soft, nand');
    }
    assert softOf[id := softOf[id]] == softOf;
    ReplaceObject(objects, softOf, used, soft, nand, id, n, softOf[id], used', soft, nand');
  }

  lemma {:induction false} DeletedObject(id: nat, o: Object, mine: set<nat>, k: nat, used: iset<nat>, soft: iset<nat>,
                                         nand: map<nat, Written>, used': iset<nat>, nand': map<nat, Written>)
    requires ObjectOk(id, o, mine, used, soft, nand) && k in o.chunks && used' == used - iset{o.chunks[k]} && Kept(nand, nand', used')
    ensures k > 0 && RefOk(o.chunks[k], id, k, used, soft, nand)
    ensures ObjectOk(id, o.(chunks := o.chunks - {k}, nData := o.nData - 1), mine, used', soft, nand')
  {
    hide Kept; hide Stays; hide Same;
    KeptStays(used, soft, nand, used', soft, nand');
    var gone, m := o.chunks[k], o.chunks - {k};
    assert RefOk(gone, id, k, used, soft, nand);
    forall j | j in m ensures m[j] in used' {
      assert RefOk(o.chunks[j], id, j, used, soft, nand);
    }
    RefsStay(id, o.chunks, m, used, soft, nand, used', soft, nand');
    if o.hdr > 0 { RefStays(o.hdr, id, 0, used, soft, nand, used', soft, nand'); }
    forall c | c in mine ensures c in used' {
      assert SoftRefOk(c, id, used, soft, nand);
    }
    SoftsStay(id, mine, mine, used, soft, nand, used', soft, nand');
    assert m.Keys == o.chunks.Keys - {k};
  }

  /** A data chunk of a file was soft-deleted: still in use, no longer referred to. */
  lemma {:induction false} SoftDeleted(
    objects: map<nat, Object>, softOf: SoftOf, used: iset<nat>, soft: iset<nat>, nand: map<nat, Written>, id: nat, k: nat)
    requires Linked(objects, softOf, used, soft, nand) && id in objects && k in objects[id].chunks
    ensures var o := objects[id];
      var c := o.chunks[k];
      c in used && c !in soft &&
      Linked(objects[id := o.(chunks := o.chunks - {k})], softOf[id := softOf[id] + {c}], used, soft + iset{c}, nand)
  {
    hide ObjectOk; hide RefsOk; hide SoftsOk;
    var o := objects[id];
    var c := o.chunks[k];
    var n := o.(chunks := o.chunks - {k});
    var soft' := soft + iset{c};
    OldIsTagged(objects, softOf, used, soft, nand, id, k);
    SoftenedObject(id, o, softOf[id], k, used, soft, nand);
    assert RefOk(c, id, k, used, soft, nand);
    var os, ss := objects[id := n], softOf[id := softOf[id] + {c}];
    forall d | d in used ensures d in nand && (nand[d].objId == id ==> ChunkOwned(d, os, ss, soft', nand)) {
      assert ChunkOwned(d, objects, softOf, soft, nand);
    }
    ReplaceObject(objects, softOf, used, soft, nand, id, n, softOf[id] + {c}, used, soft', nand);
  }

  lemma {:induction false} SoftenedObject(id: nat, o: Object, mine: set<nat>, k: nat, used: iset<nat>, soft: iset<nat>, nand: map<nat, Written>)
    requires ObjectOk(id, o, mine, used, soft, nand) && k in o.chunks
    ensures k > 0 && RefOk(o.chunks[k], id, k, used, soft, nand)
    ensures ObjectOk(id, o.(chunks := o.chunks - {k}), mine + {o.chunks[k]}, used, soft + iset{o.chunks[k]}, nand)
  {
    var c, m := o.chunks[k], o.chunks - {k};
    var soft' := soft + iset{c};
    assert RefOk(c, id, k, used, soft, nand);
    forall j | j in m ensures Stays(m[j], used, soft, nand, used, soft', nand) {
      assert RefOk(o.chunks[j], id, j, used, soft, nand);
    }
    RefsStay(id, o.chunks, m, used, soft, nand, used, soft', nand);
    if o.hdr > 0 { RefStays(o.hdr, id, 0, used, soft, nand, used, soft', nand); }
    SoftsStayAdd(id, mine, c, used, soft, nand);
    assert m.Keys == o.chunks.Keys - {k};
  }

  lemma {:induction false} SoftsStayAdd(id: nat, mine: set<nat>, c: nat, used: iset<nat>, soft: iset<nat>, nand: map<nat, Written>)
    requires SoftsOk(id, mine, used, soft, nand) && c > 0 && c in used && c !in soft && c in nand && nand[c].objId == id && nand[c].chunkId > 0
    ensures SoftsOk(id, mine + {c}, used, soft + iset{c}, nand) && c !in mine
  {
    forall d | d in mine ensures SoftRefOk(d, id, used, soft + iset{c}, nand) && d != c {
      assert SoftRefOk(d, id, used, soft, nand);
    }
  }

  /** The collector took back a soft-deleted chunk. */
  lemma {:induction false} Reclaimed(
    objects: map<nat, Object>, softOf: SoftOf, used: iset<nat>, soft: iset<nat>, nand: map<nat, Written>,
    c: nat, used': iset<nat>, soft': iset<nat>, nand': map<nat, Written>)
    requires Linked(objects, softOf, used, soft, nand) && c in used && c in soft && nand[c].chunkId > 0
    requires used' == used - iset{c} && soft' == soft - iset{c} && Kept(nand, nand', used')
    ensures c in nand && nand[c].objId in objects && nand[c].objId in softOf && c in softOf[nand[c].objId]
    ensures var id := nand[c].objId;
      Linked(objects[id := objects[id].(nData := objects[id].nData - 1)], softOf[id := softOf[id] - {c}], used', soft', nand')
  {
    hide ObjectOk; hide RefsOk; hide SoftsOk; hide Kept;
    assert ChunkOwned(c, objects, softOf, soft, nand);
    var id := nand[c].objId;
    var o := objects[id];
    var n := o.(nData := o.nData - 1);
    var mine := softOf[id] - {c};
    KeptStays(used, soft, nand, used', soft', nand');
    ReclaimedObject(id, o, softOf[id], c, used, soft, nand, used', soft', nand');
    var os, ss := objects[id := n], softOf[id := mine];
    forall d | d in used' ensures d in nand' && (nand'[d].objId == id ==> ChunkOwned(d, os, ss, soft', nand')) {
      assert ChunkOwned(d, objects, softOf, soft, nand) && Stays(d, used, soft, nand, used', soft', nand');
    }
    ReplaceObject(objects, softOf, used, soft, nand, id, n, mine, used', soft', nand');
  }

  lemma {:induction false} ReclaimedObject(id: nat, o: Object, mine: set<nat>, c: nat, used: iset<nat>, soft: iset<nat>, nand: map<nat, Written>,
                                           used': iset<nat>, soft': iset<nat>, nand': map<nat, Written>)
    requires ObjectOk(id, o, mine, used, soft, nand) && c in mine && c in soft
    requires used' == used - iset{c} && soft' == soft - iset{c} && Kept(nand, nand', used')
    ensures ObjectOk(id, o.(nData := o.nData - 1), mine - {c}, used', soft', nand')
  {
    hide Kept; hide Stays; hide Same;
    KeptStays(used, soft, nand, used', soft', nand');
    forall j | j in o.chunks ensures o.chunks[j] in used' {
      assert RefOk(o.chunks[j], id, j, used, soft, nand);
    }
    RefsStay(id, o.chunks, o.chunks, used, soft, nand, used', soft', nand');
    if o.hdr > 0 { RefStays(o.hdr, id, 0, used, soft, nand, used', soft', nand'); }
    forall d | d in mine - {c} ensures d in used' {
      assert SoftRefOk(d, id, used, soft, nand);
    }
    SoftsStay(id, mine, mine - {c}, used, soft, nand, used', soft', nand');
  }

  /** An object without data chunks was deleted, with its header. */
  lemma {:induction false} Removed(
    objects: map<nat, Object>, softOf: SoftOf, used: iset<nat>, soft: iset<nat>, nand: map<nat, Written>,
    id: nat, used': iset<nat>, nand': map<nat, Written>)
    requires Linked(objects, softOf, used, soft, nand) && id in objects && objects[id].chunks == map[] && softOf[id] == {}
    requires used' == used - (if objects[id].hdr > 0 then iset{objects[id].hdr} else iset{}) && Kept(nand, nand', used') && 0 !in used
    ensures Linked(objects - {id}, softOf - {id}, used', soft, nand')
  {
    hide ObjectOk; hide RefsOk; hide SoftsOk; hide Kept;
    var os, ss := objects - {id}, softOf - {id};
    KeptStays(used, soft, nand, used', soft, nand');
    OldIsTagged(objects, softOf, used, soft, nand, id, 0);
    forall c | c in used' ensures ChunkOwned(c, os, ss, soft, nand') {
      assert ChunkOwned(c, objects, softOf, soft, nand) && Stays(c, used, soft, nand, used', soft, nand');
    }
    forall x | x in os ensures ObjectOk(x, os[x], ss[x], used', soft, nand') {
      ObjectStays(x, objects[x], softOf[x], used, soft, nand, used', soft, nand');
    }
  }

  /** A new object refers to nothing yet. */
  lemma {:induction false} Created(
    objects: map<nat, Object>, softOf: SoftOf, used: iset<nat>, soft: iset<nat>, nand: map<nat, Written>, id: nat, o: Object)
    requires Linked(objects, softOf, used, soft, nand) && id !in objects
    requires o.hdr == 0 && o.chunks == map[] && o.nData == 0
    ensures Linked(objects[id := o], softOf[id := {}], used, soft, nand)
  {
    forall c | c in used ensures ChunkOwned(c, objects, softOf, soft, nand) {
    }
    ReplaceObject(objects, softOf, used, soft, nand, id, o, {}, used, soft, nand);
  }

  /** A change of an object that no reference depends on. */
  lemma {:induction false} Relabelled(
    objects: map<nat, Object>, softOf: SoftOf, used: iset<nat>, soft: iset<nat>, nand: map<nat, Written>, id: nat, o: Object)
    requires Linked(objects, softOf, used, soft, nand) && id in objects
    requires o == objects[id].(softDeleted := o.softDeleted, isFile := o.isFile, storedSize := o.storedSize)
    ensures Linked(objects[id := o], softOf, used, soft, nand)
  {
    hide RefsOk; hide SoftsOk;
    forall c | c in used ensures ChunkOwned(c, objects, softOf, soft, nand) {
    }
    assert softOf[id := softOf[id]] == softOf;
    assert ObjectOk(id, objects[id], softOf[id], used, soft, nand);
    ReplaceObject(objects, softOf, used, soft, nand, id, o, softOf[id], used, soft, nand);
  }
}
