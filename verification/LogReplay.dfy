/** Recovery of files from the flash log: what the newest-to-oldest scan does to one file, what a
    forward replay of the same log means, and that they agree.

    A chunk of data belongs to an object and a chunk id; a header chunk gives an object's size.  Later
    chunks supersede earlier ones, and a file that once shrank must not regain what it lost.
 */
module LogReplay {

  const OBJECTID_UNLINKED := 3
  const OBJECTID_DELETED := 4
  const OBJECTID_SUMMARY := 0x10
  const MAX_OBJECT_ID := 0x3_ffff
  const MAX_CHUNK_ID := 0x0fff_ffff
  const LIMIT_32 := 0x1_0000_0000

  /** What the spare area of a chunk says; for a header also the size, parent and shrink flag. */
  datatype Tags = Tags(used: bool, unfixed: bool, objId: nat, chunkId: nat, nBytes: nat, seqNumber: nat,
                       size: nat, parent: nat, isShrink: bool)

  /** A chunk of the log: its NAND chunk number, its tags and the sequence number of its block. */
  datatype Page = Page(chunk: nat, tags: Tags, blockSeq: nat)

  /** The RAM state of one file. */
  datatype File = File(valid: bool, shrinkSize: nat, size: nat, chunks: map<nat, nat>, hdrChunk: nat, live: set<nat>)

  /** Tags the scan accepts; all other chunks are passed over. */
  predicate Accepted(p: Page, bytesPerChunk: nat) {
    && p.tags.used && !p.tags.unfixed
    && p.tags.objId <= MAX_OBJECT_ID && p.tags.chunkId <= MAX_CHUNK_ID && p.tags.objId != OBJECTID_SUMMARY
    && (p.tags.chunkId > 0 ==> p.tags.nBytes <= bytesPerChunk)
    && p.tags.seqNumber == p.blockSeq
  }

  predicate IsData(p: Page, bpc: nat, id: nat) {
    Accepted(p, bpc) && p.tags.objId == id && p.tags.chunkId > 0
  }

  predicate IsHeader(p: Page, bpc: nat, id: nat) {
    Accepted(p, bpc) && p.tags.objId == id && p.tags.chunkId == 0
  }

  // ----- the scan, one chunk at a time

  /** chunk_base of the scan: computed in 32 bits. */
  function Base32(chunkId: nat, bpc: nat): nat
    requires chunkId > 0
  {
    ((chunkId - 1) * bpc) % LIMIT_32
  }

  /** yaffs_max_file_size. */
  function MaxFileSize(bpc: nat): nat { MAX_CHUNK_ID * bpc }

  function NewFile(bpc: nat): File { File(false, MaxFileSize(bpc), 0, map[], 0, {}) }

  function Min(a: nat, b: nat): nat { if a < b then a else b }

  function Max(a: nat, b: nat): nat { if a < b then b else a }

  predicate Gone(parent: nat) { parent == OBJECTID_DELETED || parent == OBJECTID_UNLINKED }

  function ScanData(f: File, p: Page, bpc: nat): File
    requires p.tags.chunkId > 0
  {
    var t := p.tags;
    var base := Base32(t.chunkId, bpc);
    if base < f.shrinkSize then
      var g := if t.chunkId in f.chunks then f else f.(chunks := f.chunks[t.chunkId := p.chunk], live := f.live + {p.chunk});
      if !f.valid && f.size < base + t.nBytes then g.(size := base + t.nBytes) else g
    else f
  }

  function ScanHeader(f: File, p: Page): File {
    var t := p.tags;
    if f.valid then
      var size := if Gone(t.parent) then 0 else t.size;
      var isShrink := Gone(t.parent) || t.isShrink;
      if isShrink && f.shrinkSize > size then f.(shrinkSize := size) else f
    else
      f.(valid := true, hdrChunk := p.chunk, live := f.live + {p.chunk},
         size := if f.size < t.size then t.size else f.size,
         shrinkSize := if f.shrinkSize > t.size then t.size else f.shrinkSize)
  }

  /** The effect of one scanned chunk on the file with object number id. */
  function ScanStep(f: File, p: Page, bpc: nat, id: nat): File {
    if IsData(p, bpc, id) then ScanData(f, p, bpc)
    else if IsHeader(p, bpc, id) then ScanHeader(f, p)
    else f
  }

  /** The scan of a log that ends where the state f was reached: newest chunk first. */
  ghost function Scan(f: File, log: seq<Page>, bpc: nat, id: nat): File {
    if log == [] then f else ScanStep(Scan(f, log[1..], bpc, id), log[0], bpc, id)
  }

  lemma {:induction false} ScanAppend(f: File, a: seq<Page>, b: seq<Page>, bpc: nat, id: nat)
    ensures Scan(f, a + b, bpc, id) == Scan(Scan(f, b, bpc, id), a, bpc, id)
  {
    hide ScanStep;
    if a == [] {
      assert a + b == b;
    } else {
      assert (a + b)[1..] == a[1..] + b;
      ScanAppend(f, a[1..], b, bpc, id);
    }
  }

  // ----- the meaning of the log

  datatype Content = Content(chunks: map<nat, nat>, size: nat)

  /** First byte of a chunk within its file. */
  function Base(chunkId: nat, bpc: nat): nat
    requires chunkId > 0
  {
    (chunkId - 1) * bpc
  }

  ghost predicate Positive(m: map<nat, nat>) {
    forall c | c in m :: c > 0
  }

  /** A file cut to size loses the chunks at or past it. */
  ghost function Cut(m: map<nat, nat>, size: nat, bpc: nat): (r: map<nat, nat>)
    requires Positive(m)
    ensures Positive(r)
  {
    map c | c in m && Base(c, bpc) < size :: m[c]
  }

  /** One chunk of a forward replay.  Data replaces its chunk and extends the file.  A header gives the
      file's size; it cuts the file if it is the newest header of the file, or says that the file was cut.
   */
  ghost function Apply(c: Content, p: Page, bpc: nat, id: nat, newest: bool): (r: Content)
    requires Positive(c.chunks)
    ensures Positive(r.chunks)
  {
    var t := p.tags;
    if IsData(p, bpc, id) then Content(c.chunks[t.chunkId := p.chunk], Max(c.size, Base(t.chunkId, bpc) + t.nBytes))
    else if IsHeader(p, bpc, id) then
      Content(if newest then Cut(c.chunks, t.size, bpc)
              else if Gone(t.parent) then Cut(c.chunks, 0, bpc)
              else if t.isShrink then Cut(c.chunks, t.size, bpc)
              else c.chunks,
              t.size)
    else c
  }

  /** Forward replay of a log; superseded says whether a newer header of the file follows the log. */
  ghost function Replay(log: seq<Page>, bpc: nat, id: nat, superseded: bool): (r: Content)
    ensures Positive(r.chunks)
  {
    if log == [] then Content(map[], 0)
    else
      var p := log[|log| - 1];
      Apply(Replay(log[..|log| - 1], bpc, id, superseded || IsHeader(p, bpc, id)), p, bpc, id, !superseded)
  }

  /** No data chunk of the file begins at or past 4 GB. */
  ghost predicate Below4G(log: seq<Page>, bpc: nat, id: nat) {
    forall i | 0 <= i < |log| && IsData(log[i], bpc, id) :: PageBelow4G(log[i], bpc)
  }

  predicate PageBelow4G(p: Page, bpc: nat) {
    p.tags.chunkId > 0 ==> Base(p.tags.chunkId, bpc) < LIMIT_32
  }

  // ----- agreement

  /** A file scanned down to some point, completed by the meaning of the older part of the log. */
  ghost function Complete(f: File, older: Content, bpc: nat): Content
    requires Positive(older.chunks)
  {
    Content(Cut(older.chunks, f.shrinkSize, bpc) + f.chunks, if f.valid then f.size else Max(f.size, older.size))
  }

  ghost predicate Sane(f: File, bpc: nat) {
    !f.valid ==> f.shrinkSize == MaxFileSize(bpc)
  }

  lemma BaseBelow4G(chunkId: nat, bpc: nat)
    requires chunkId > 0
    ensures Base32(chunkId, bpc) == Base(chunkId, bpc) <==> Base(chunkId, bpc) < LIMIT_32
  {
  }

  lemma BaseBelowMax(chunkId: nat, bpc: nat)
    requires 0 < chunkId <= MAX_CHUNK_ID && bpc > 0
    ensures Base(chunkId, bpc) < MaxFileSize(bpc)
  {
    assert (chunkId - 1) * bpc < chunkId * bpc;
    assert chunkId * bpc <= MAX_CHUNK_ID * bpc;
  }

  lemma AcceptedId(p: Page, bpc: nat)
    ensures Accepted(p, bpc) ==> p.tags.chunkId <= MAX_CHUNK_ID
  {
  }

  lemma PutUnderCut(older: map<nat, nat>, newer: map<nat, nat>, c: nat, x: nat, size: nat, bpc: nat)
    requires Positive(older) && c > 0
    ensures Base(c, bpc) < size && c !in newer ==> Cut(older, size, bpc) + newer[c := x] == Cut(older[c := x], size, bpc) + newer
    ensures Base(c, bpc) < size && c in newer ==> Cut(older, size, bpc) + newer == Cut(older[c := x], size, bpc) + newer
    ensures Base(c, bpc) >= size ==> Cut(older, size, bpc) == Cut(older[c := x], size, bpc)
  {
    hide Base;
  }

  lemma CutTwice(m: map<nat, nat>, a: nat, b: nat, bpc: nat)
    requires Positive(m)
    ensures Cut(Cut(m, a, bpc), b, bpc) == Cut(m, Min(b, a), bpc)
  {
    hide Base;
  }

  lemma {:induction false} CompleteData(f: File, older: Content, p: Page, bpc: nat, id: nat)
    requires bpc > 0 && Sane(f, bpc) && Positive(older.chunks) && PageBelow4G(p, bpc) && IsData(p, bpc, id)
    ensures Complete(ScanStep(f, p, bpc, id), older, bpc) == Complete(f, Apply(older, p, bpc, id, !f.valid), bpc)
  {
    hide Base; hide Base32; hide MaxFileSize; hide Cut; hide Accepted;
    var t := p.tags;
    BaseBelow4G(t.chunkId, bpc);
    AcceptedId(p, bpc);
    BaseBelowMax(t.chunkId, bpc);
    PutUnderCut(older.chunks, f.chunks, t.chunkId, p.chunk, f.shrinkSize, bpc);
  }

  lemma {:induction false} CompleteHeader(f: File, older: Content, p: Page, bpc: nat, id: nat)
    requires bpc > 0 && Sane(f, bpc) && Positive(older.chunks) && IsHeader(p, bpc, id)
    ensures Complete(ScanStep(f, p, bpc, id), older, bpc) == Complete(f, Apply(older, p, bpc, id, !f.valid), bpc)
  {
    hide Base; hide Base32; hide MaxFileSize; hide Cut; hide Accepted;
    CutTwice(older.chunks, p.tags.size, f.shrinkSize, bpc);
    CutTwice(older.chunks, 0, f.shrinkSize, bpc);
  }

  /** Scanning one more chunk, or counting it to the older part of the log, is the same. */
  lemma {:induction false} CompleteStep(f: File, older: Content, p: Page, bpc: nat, id: nat)
    requires bpc > 0 && Sane(f, bpc) && Positive(older.chunks) && (IsData(p, bpc, id) ==> PageBelow4G(p, bpc))
    ensures Sane(ScanStep(f, p, bpc, id), bpc)
    ensures Complete(ScanStep(f, p, bpc, id), older, bpc) == Complete(f, Apply(older, p, bpc, id, !f.valid), bpc)
  {
    hide Accepted; hide Base; hide Base32; hide MaxFileSize; hide Complete;
    if IsData(p, bpc, id) {
      CompleteData(f, older, p, bpc, id);
    } else if IsHeader(p, bpc, id) {
      CompleteHeader(f, older, p, bpc, id);
    }
  }

  lemma ScanMarksHeader(f: File, p: Page, bpc: nat, id: nat)
    ensures ScanStep(f, p, bpc, id).valid <==> f.valid || IsHeader(p, bpc, id)
  {
  }

  /** Scanning the log from its newest chunk completes to replaying it from its oldest. */
  lemma {:induction false} ScanCompletes(f: File, log: seq<Page>, bpc: nat, id: nat)
    requires bpc > 0 && Sane(f, bpc) && Below4G(log, bpc, id)
    ensures var g := Scan(f, log, bpc, id);
      Content(g.chunks, g.size) == Complete(f, Replay(log, bpc, id, f.valid), bpc)
    decreases |log|
  {
    hide ScanStep; hide Apply;
    if log != [] {
      var n := |log| - 1;
      var older, p := log[..n], log[n];
      assert log == older + [p];
      ScanAppend(f, older, [p], bpc, id);
      assert [p][1..] == [];
      var g := ScanStep(f, p, bpc, id);
      assert Scan(f, [p], bpc, id) == g;
      ScanMarksHeader(f, p, bpc, id);
      CompleteStep(f, Replay(older, bpc, id, g.valid), p, bpc, id);
      ScanCompletes(g, older, bpc, id);
    }
  }

  /** Data chunks of an accepted log stay below the largest file size, so a new file cuts nothing. */
  lemma {:induction false} ReplayBelowMax(log: seq<Page>, bpc: nat, id: nat, superseded: bool)
    requires bpc > 0
    ensures var m := Replay(log, bpc, id, superseded).chunks; Cut(m, MaxFileSize(bpc), bpc) == m
  {
    hide MaxFileSize; hide Base;
    if log != [] {
      var p := log[|log| - 1];
      ReplayBelowMax(log[..|log| - 1], bpc, id, superseded || IsHeader(p, bpc, id));
      var older := Replay(log[..|log| - 1], bpc, id, superseded || IsHeader(p, bpc, id)).chunks;
      forall c | c in older ensures Base(c, bpc) < MaxFileSize(bpc) {
        assert c in Cut(older, MaxFileSize(bpc), bpc);
      }
      if IsData(p, bpc, id) { BaseBelowMax(p.tags.chunkId, bpc); }
    }
  }

  /** Mounting by a backward scan recovers what the log means, file by file. */
  lemma {:induction false} ScanIsReplay(log: seq<Page>, bpc: nat, id: nat)
    requires bpc > 0 && Below4G(log, bpc, id)
    ensures var g := Scan(NewFile(bpc), log, bpc, id); Content(g.chunks, g.size) == Replay(log, bpc, id, false)
  {
    hide Replay; hide Scan; hide MaxFileSize;
    ScanCompletes(NewFile(bpc), log, bpc, id);
    ReplayBelowMax(log, bpc, id, false);
  }

  // ----- the chunks in use afterwards

  /** The chunks still marked in use are those the file refers to. */
  ghost predicate LiveIsReferenced(f: File) {
    f.live == f.chunks.Values + (if f.valid then {f.hdrChunk} else {})
  }

  /** No chunk is referred to twice. */
  ghost predicate OneReference(f: File) {
    && (forall c, d | c in f.chunks && d in f.chunks && c != d :: f.chunks[c] != f.chunks[d])
    && (f.valid ==> f.hdrChunk !in f.chunks.Values)
  }

  ghost predicate FromLog(f: File, log: seq<Page>) {
    forall x | x in f.live :: exists i :: 0 <= i < |log| && log[i].chunk == x
  }

  lemma {:induction false} StepLive(f: File, p: Page, bpc: nat, id: nat)
    requires LiveIsReferenced(f) && OneReference(f) && p.chunk !in f.live
    ensures var g := ScanStep(f, p, bpc, id); LiveIsReferenced(g) && OneReference(g) && f.live <= g.live <= f.live + {p.chunk}
  {
    hide Accepted; hide Base32;
    NewValue(f.chunks, p.tags.chunkId, p.chunk);
  }

  lemma NewValue(m: map<nat, nat>, c: nat, x: nat)
    ensures c !in m ==> m[c := x].Values == m.Values + {x}
  {
    if c !in m {
      var n := m[c := x];
      forall v | v in m.Values + {x} ensures v in n.Values {
        if v in m.Values {
          var d :| d in m && m[d] == v;
          assert n[d] == v;
        } else {
          assert n[c] == v;
        }
      }
    }
  }

  /** After the scan each chunk in use is referred to exactly once: as the header or as one chunk of data. */
  lemma {:induction false} ScanLive(log: seq<Page>, bpc: nat, id: nat)
    requires forall i, j | 0 <= i < j < |log| :: log[i].chunk != log[j].chunk
    ensures var g := Scan(NewFile(bpc), log, bpc, id); LiveIsReferenced(g) && OneReference(g) && FromLog(g, log)
  {
    hide ScanStep;
    if log != [] {
      ScanLive(log[1..], bpc, id);
      var f := Scan(NewFile(bpc), log[1..], bpc, id);
      assert FromLog(f, log) && log[0].chunk !in f.live by {
        forall x | x in f.live ensures x != log[0].chunk && exists i :: 0 <= i < |log| && log[i].chunk == x {
          var i :| 0 <= i < |log[1..]| && log[1..][i].chunk == x;
          assert log[i + 1].chunk == x;
        }
      }
      StepLive(f, log[0], bpc, id);
    }
  }

  // ----- the scan in terms of the tags

  /** What a scanned page must say to be taken as a chunk of file id: a full chunk is taken, a longer one is not. */
  predicate GoodTags(p: Page, id: nat) {
    p.tags.used && !p.tags.unfixed && p.tags.objId == id <= 0x3_ffff && id != 0x10 && p.tags.seqNumber == p.blockSeq
  }

  /** One data page: it is mapped if and only if its tags are good, and then it gives the size. */
  lemma {:induction false} DataScanned(p: Page, bpc: nat, id: nat)
    requires bpc > 0 && p.tags.chunkId > 0
    ensures var g := Scan(NewFile(bpc), [p], bpc, id); var t := p.tags;
      if GoodTags(p, id) && t.chunkId <= 0xfff_ffff && t.nBytes <= bpc
      then g == File(false, 0xfff_ffff * bpc, (t.chunkId - 1) * bpc % 0x1_0000_0000 + t.nBytes, map[t.chunkId := p.chunk], 0, {p.chunk})
      else g == File(false, 0xfff_ffff * bpc, 0, map[], 0, {})
  {
    assert [p][1..] == [];
    assert Scan(NewFile(bpc), [], bpc, id) == NewFile(bpc);
    if p.tags.chunkId <= MAX_CHUNK_ID {
      BaseBelowMax(p.tags.chunkId, bpc);
      WrappedSmaller(p.tags.chunkId, bpc);
    }
  }

  /** One header page, likewise. */
  lemma {:induction false} HeaderScanned(p: Page, bpc: nat, id: nat)
    requires p.tags.chunkId == 0
    ensures var g := Scan(NewFile(bpc), [p], bpc, id);
      if GoodTags(p, id)
      then g == File(true, if p.tags.size < 0xfff_ffff * bpc then p.tags.size else 0xfff_ffff * bpc, p.tags.size, map[], p.chunk, {p.chunk})
      else g == File(false, 0xfff_ffff * bpc, 0, map[], 0, {})
  {
    assert [p][1..] == [];
    assert Scan(NewFile(bpc), [], bpc, id) == NewFile(bpc);
  }

  /** A data page under two headers: it is mapped if and only if it begins below the size that the newer header says, the
      older header does not say that it was cut off, and the file had not been unlinked or deleted.
   */
  lemma {:induction false} ScannedUnderHeaders(d: Page, older: Page, newer: Page, bpc: nat, id: nat)
    requires bpc > 0 && GoodTags(d, id) && GoodTags(older, id) && GoodTags(newer, id)
    requires 0 < d.tags.chunkId <= 0xfff_ffff && d.tags.nBytes <= bpc && older.tags.chunkId == 0 && newer.tags.chunkId == 0
    ensures var g := Scan(NewFile(bpc), [d, older, newer], bpc, id); var base := (d.tags.chunkId - 1) * bpc % 0x1_0000_0000;
      && g.valid && g.hdrChunk == newer.chunk && g.size == newer.tags.size
      && g.chunks == if base < newer.tags.size && older.tags.parent != 3 && older.tags.parent != 4 && (older.tags.isShrink ==> base < older.tags.size)
                     then map[d.tags.chunkId := d.chunk] else map[]
  {
    var log := [d, older, newer];
    assert log[1..] == [older, newer] && [older, newer][1..] == [newer];
    HeaderScanned(newer, bpc, id);
    BaseBelowMax(d.tags.chunkId, bpc);
    WrappedSmaller(d.tags.chunkId, bpc);
  }

  // ----- past 4 GB

  /** A log of one data chunk is recovered rightly if and only if the chunk begins below 4 GB. */
  lemma {:induction false} OneChunkIff(p: Page, bpc: nat, id: nat)
    requires bpc > 0 && IsData(p, bpc, id)
    ensures var g := Scan(NewFile(bpc), [p], bpc, id);
      Content(g.chunks, g.size) == Replay([p], bpc, id, false) <==> PageBelow4G(p, bpc)
  {
    if PageBelow4G(p, bpc) {
      ScanIsReplay([p], bpc, id);
    } else {
      hide Accepted; hide Base; hide MaxFileSize;
      BaseBelow4G(p.tags.chunkId, bpc);
      AcceptedId(p, bpc);
      BaseBelowMax(p.tags.chunkId, bpc);
      assert [p][1..] == [] && [p][..0] == [];
      WrappedSmaller(p.tags.chunkId, bpc);
    }
  }

  lemma WrappedSmaller(chunkId: nat, bpc: nat)
    requires chunkId > 0
    ensures Base32(chunkId, bpc) <= Base(chunkId, bpc)
  {
  }

  /** One chunk of data that starts at 4 GB: its base wraps to 0, and the recovered size is wrong. */
  lemma WrapsAt4G()
    ensures var p := Page(1000, Tags(true, false, 0x100, 0x20_0001, 100, 0x1000, 0, 0, false), 0x1000);
            Scan(NewFile(2048), [p], 2048, 0x100).size == 100 && Replay([p], 2048, 0x100, false).size == LIMIT_32 + 100
  {
    var p := Page(1000, Tags(true, false, 0x100, 0x20_0001, 100, 0x1000, 0, 0, false), 0x1000);
    assert [p][1..] == [] && [p][..0] == [];
    assert Scan(NewFile(2048), [], 2048, 0x100) == NewFile(2048);
    assert Replay([], 2048, 0x100, false) == Content(map[], 0);
    assert Base32(0x20_0001, 2048) == 0 && Base(0x20_0001, 2048) == LIMIT_32;
  }
}
