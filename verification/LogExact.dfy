/** Exactly which logs the backward scan recovers rightly, although it computes the base of a chunk in 32 bits. */
module LogExact {
  import opened Options
  import opened LogReplay

  // ----- which chunks survive

  /** The shrink size after one more header, scanned newest first; newest says that none was scanned before. */
  function ShrinkAfter(s: nat, p: Page, newest: bool): nat {
    if newest then Min(s, p.tags.size)
    else if Gone(p.tags.parent) then 0
    else if p.tags.isShrink then Min(s, p.tags.size)
    else s
  }

  /** The newest data page of chunk c, and the shrink size that newer headers leave for it. */
  datatype Newest = Newest(chunk: nat, shrink: nat)

  /** Found by walking the log from its newest page, s being the shrink size and seen whether a header was met. */
  ghost function NewestOf(log: seq<Page>, bpc: nat, id: nat, c: nat, s: nat, seen: bool): Option<Newest> {
    if log == [] then None
    else
      var p := log[|log| - 1];
      var older := log[..|log| - 1];
      if IsData(p, bpc, id) && p.tags.chunkId == c then Some(Newest(p.chunk, s))
      else if IsHeader(p, bpc, id) then NewestOf(older, bpc, id, c, ShrinkAfter(s, p, !seen), true)
      else NewestOf(older, bpc, id, c, s, seen)
  }

  /** The chunk that is left at c when its base is taken to be base. */
  ghost function Survivor(n: Option<Newest>, base: nat): Option<nat> {
    if n.Some? && base < n.value.shrink then Some(n.value.chunk) else None
  }

  function At(m: map<nat, nat>, c: nat): Option<nat> {
    if c in m then Some(m[c]) else None
  }

  lemma {:induction false} ScanSplit(f: File, log: seq<Page>, bpc: nat, id: nat)
    requires log != []
    ensures var n := |log| - 1; Scan(f, log, bpc, id) == Scan(ScanStep(f, log[n], bpc, id), log[..n], bpc, id)
  {
    hide ScanStep;
    var n := |log| - 1;
    var p := log[n];
    assert log == log[..n] + [p];
    ScanAppend(f, log[..n], [p], bpc, id);
    assert [p][1..] == [];
    assert Scan(f, [p], bpc, id) == ScanStep(f, p, bpc, id);
  }

  lemma StepShrinks(f: File, p: Page, bpc: nat, id: nat)
    ensures ScanStep(f, p, bpc, id).shrinkSize == if IsHeader(p, bpc, id) then ShrinkAfter(f.shrinkSize, p, !f.valid) else f.shrinkSize
    ensures ScanStep(f, p, bpc, id).valid <==> f.valid || IsHeader(p, bpc, id)
  {
    hide Base32;
  }

  /** What a scanned page does to one chunk. */
  lemma StepAt(f: File, p: Page, bpc: nat, id: nat, c: nat)
    requires c > 0
    ensures At(ScanStep(f, p, bpc, id).chunks, c) ==
      if IsData(p, bpc, id) && p.tags.chunkId == c && c !in f.chunks && Base32(c, bpc) < f.shrinkSize then Some(p.chunk) else At(f.chunks, c)
  {
    hide Base32;
  }

  /** A chunk at or past the shrink size never comes in, and one that is in stays. */
  lemma {:induction false} ScanFixed(f: File, log: seq<Page>, bpc: nat, id: nat, c: nat)
    requires c > 0 && (c in f.chunks || Base32(c, bpc) >= f.shrinkSize)
    ensures At(Scan(f, log, bpc, id).chunks, c) == At(f.chunks, c)
    decreases |log|
  {
    if log != [] {
      hide ScanStep; hide Base32;
      var n := |log| - 1;
      ScanSplit(f, log, bpc, id);
      StepShrinks(f, log[n], bpc, id);
      StepAt(f, log[n], bpc, id, c);
      ScanFixed(ScanStep(f, log[n], bpc, id), log[..n], bpc, id, c);
    }
  }

  /** The scan keeps the newest data page of c if and only if its 32-bit base is below the shrink size. */
  lemma {:induction false} ScanAt(f: File, log: seq<Page>, bpc: nat, id: nat, c: nat)
    requires c > 0 && c !in f.chunks
    ensures At(Scan(f, log, bpc, id).chunks, c) == Survivor(NewestOf(log, bpc, id, c, f.shrinkSize, f.valid), Base32(c, bpc))
    decreases |log|
  {
    if log != [] {
      hide ScanStep; hide Base32; hide ShrinkAfter;
      var n := |log| - 1;
      var p := log[n];
      var g := ScanStep(f, p, bpc, id);
      ScanSplit(f, log, bpc, id);
      StepShrinks(f, p, bpc, id);
      StepAt(f, p, bpc, id, c);
      if IsData(p, bpc, id) && p.tags.chunkId == c {
        ScanFixed(g, log[..n], bpc, id, c);
      } else {
        ScanAt(g, log[..n], bpc, id, c);
      }
    }
  }

  lemma CutAt(m: map<nat, nat>, s: nat, bpc: nat, c: nat)
    requires Positive(m) && c > 0
    ensures At(Cut(m, s, bpc), c) == if Base(c, bpc) < s then At(m, c) else None
  {
    hide Base;
  }

  /** The replay keeps it if and only if its true base is. */
  lemma {:induction false} ReplayAt(log: seq<Page>, bpc: nat, id: nat, c: nat, s: nat, seen: bool)
    requires c > 0
    ensures At(Cut(Replay(log, bpc, id, seen).chunks, s, bpc), c) == Survivor(NewestOf(log, bpc, id, c, s, seen), Base(c, bpc))
    decreases |log|
  {
    if log != [] {
      hide Base; hide Cut; hide Accepted;
      var n := |log| - 1;
      var p := log[n];
      var isHeader := IsHeader(p, bpc, id);
      var older := Replay(log[..n], bpc, id, seen || isHeader);
      var whole := Replay(log, bpc, id, seen);
      assert whole == Apply(older, p, bpc, id, !seen);
      CutAt(whole.chunks, s, bpc, c);
      if isHeader {
        var s' := ShrinkAfter(s, p, !seen);
        ReplayAt(log[..n], bpc, id, c, s', true);
        CutTwice(older.chunks, p.tags.size, s, bpc);
        CutTwice(older.chunks, 0, s, bpc);
      } else {
        ReplayAt(log[..n], bpc, id, c, s, seen);
        CutAt(older.chunks, s, bpc, c);
      }
    }
  }

  /** The scan misjudges a chunk whose 32-bit base is below the shrink size while its true base is not. */
  ghost predicate Misjudged(log: seq<Page>, bpc: nat, id: nat, c: nat)
    requires c > 0
  {
    var n := NewestOf(log, bpc, id, c, MaxFileSize(bpc), false);
    n.Some? && Base32(c, bpc) < n.value.shrink <= Base(c, bpc)
  }

  lemma {:induction false} ChunkRightIff(log: seq<Page>, bpc: nat, id: nat, c: nat)
    requires bpc > 0 && c > 0
    ensures At(Scan(NewFile(bpc), log, bpc, id).chunks, c) == At(Replay(log, bpc, id, false).chunks, c) <==> !Misjudged(log, bpc, id, c)
  {
    hide Base; hide Base32; hide MaxFileSize; hide Scan; hide Replay; hide NewestOf;
    ScanAt(NewFile(bpc), log, bpc, id, c);
    ReplayAt(log, bpc, id, c, MaxFileSize(bpc), false);
    ReplayBelowMax(log, bpc, id, false);
    WrappedSmaller(c, bpc);
  }

  /** Chunk 0 is the header: no map has it. */
  lemma {:induction false} ScanPositive(f: File, log: seq<Page>, bpc: nat, id: nat)
    requires Positive(f.chunks)
    ensures Positive(Scan(f, log, bpc, id).chunks)
  {
    if log != [] {
      ScanPositive(f, log[1..], bpc, id);
    }
  }

  lemma SameMap(m: map<nat, nat>, n: map<nat, nat>)
    requires Positive(m) && Positive(n)
    ensures m == n <==> forall c: nat | c > 0 :: At(m, c) == At(n, c)
  {
    if forall c: nat | c > 0 :: At(m, c) == At(n, c) {
      forall c | c in m ensures c in n && m[c] == n[c] { assert At(m, c) == At(n, c); }
      forall c | c in n ensures c in m { assert At(m, c) == At(n, c); }
    }
  }

  /** The chunk map is recovered rightly if and only if no chunk is misjudged. */
  lemma {:induction false} MapRightIff(log: seq<Page>, bpc: nat, id: nat)
    requires bpc > 0
    ensures Scan(NewFile(bpc), log, bpc, id).chunks == Replay(log, bpc, id, false).chunks
       <==> forall c: nat | c > 0 :: !Misjudged(log, bpc, id, c)
  {
    hide Scan; hide Replay; hide Misjudged; hide At;
    ScanPositive(NewFile(bpc), log, bpc, id);
    SameMap(Scan(NewFile(bpc), log, bpc, id).chunks, Replay(log, bpc, id, false).chunks);
    forall c: nat | c > 0
      ensures At(Scan(NewFile(bpc), log, bpc, id).chunks, c) == At(Replay(log, bpc, id, false).chunks, c) <==> !Misjudged(log, bpc, id, c)
    {
      ChunkRightIff(log, bpc, id, c);
    }
  }

  // ----- the size

  /** Where a data page ends in its file, truly and as the scan computes it. */
  function End(p: Page, bpc: nat): nat
    requires p.tags.chunkId > 0
  {
    Base(p.tags.chunkId, bpc) + p.tags.nBytes
  }

  function End32(p: Page, bpc: nat): nat
    requires p.tags.chunkId > 0
  {
    Base32(p.tags.chunkId, bpc) + p.tags.nBytes
  }

  /** The size the newest header gives, and how far the newer pages below 4 GB reach. */
  ghost function KnownSize(log: seq<Page>, bpc: nat, id: nat): nat {
    if log == [] then 0
    else
      var p := log[|log| - 1];
      var before := KnownSize(log[..|log| - 1], bpc, id);
      if IsData(p, bpc, id) then (if PageBelow4G(p, bpc) then Max(before, End(p, bpc)) else before)
      else if IsHeader(p, bpc, id) then p.tags.size
      else before
  }

  /** How far the pages past 4 GB reach that are newer than the newest header. */
  ghost function WrappedEnd(log: seq<Page>, bpc: nat, id: nat): nat {
    if log == [] then 0
    else
      var p := log[|log| - 1];
      var before := WrappedEnd(log[..|log| - 1], bpc, id);
      if IsData(p, bpc, id) then (if PageBelow4G(p, bpc) then before else Max(before, End(p, bpc)))
      else if IsHeader(p, bpc, id) then 0
      else before
  }

  /** The same, as the scan sees it. */
  ghost function WrappedEnd32(log: seq<Page>, bpc: nat, id: nat): nat {
    if log == [] then 0
    else
      var p := log[|log| - 1];
      var before := WrappedEnd32(log[..|log| - 1], bpc, id);
      if IsData(p, bpc, id) then (if PageBelow4G(p, bpc) then before else Max(before, End32(p, bpc)))
      else if IsHeader(p, bpc, id) then 0
      else before
  }

  lemma EndsCompare(p: Page, bpc: nat)
    requires p.tags.chunkId > 0
    ensures if PageBelow4G(p, bpc) then End32(p, bpc) == End(p, bpc) else End32(p, bpc) < End(p, bpc)
  {
    BaseBelow4G(p.tags.chunkId, bpc);
    WrappedSmaller(p.tags.chunkId, bpc);
  }

  lemma {:induction false} WrappedIsSmaller(log: seq<Page>, bpc: nat, id: nat)
    ensures var a, b := WrappedEnd32(log, bpc, id), WrappedEnd(log, bpc, id); a < b || (a == 0 && b == 0)
  {
    hide End; hide End32; hide PageBelow4G; hide Accepted;
    if log != [] {
      var p := log[|log| - 1];
      WrappedIsSmaller(log[..|log| - 1], bpc, id);
      if IsData(p, bpc, id) { EndsCompare(p, bpc); }
    }
  }

  lemma {:induction false} ReplaySize(log: seq<Page>, bpc: nat, id: nat, seen: bool)
    ensures Replay(log, bpc, id, seen).size == Max(KnownSize(log, bpc, id), WrappedEnd(log, bpc, id))
  {
    hide Accepted; hide PageBelow4G; hide Base; hide Cut;
    if log != [] {
      var p := log[|log| - 1];
      ReplaySize(log[..|log| - 1], bpc, id, seen || IsHeader(p, bpc, id));
    }
  }

  lemma {:induction false} ScanSize(f: File, log: seq<Page>, bpc: nat, id: nat)
    requires bpc > 0 && Sane(f, bpc)
    ensures Scan(f, log, bpc, id).size
         == if f.valid then f.size else Max(f.size, Max(KnownSize(log, bpc, id), WrappedEnd32(log, bpc, id)))
    decreases |log|
  {
    if log != [] {
      var n := |log| - 1;
      var p := log[n];
      ScanSplit(f, log, bpc, id);
      StepSize(f, p, bpc, id);
      hide ScanStep; hide Accepted; hide End; hide End32; hide PageBelow4G; hide Sane; hide Scan;
      if IsData(p, bpc, id) { EndsCompare(p, bpc); }
      ScanSize(ScanStep(f, p, bpc, id), log[..n], bpc, id);
    }
  }

  lemma {:induction false} StepSize(f: File, p: Page, bpc: nat, id: nat)
    requires bpc > 0 && Sane(f, bpc)
    ensures var g := ScanStep(f, p, bpc, id);
      && Sane(g, bpc) && (g.valid <==> f.valid || IsHeader(p, bpc, id))
      && g.size == if f.valid then f.size
                   else if IsData(p, bpc, id) then Max(f.size, End32(p, bpc))
                   else if IsHeader(p, bpc, id) then Max(f.size, p.tags.size)
                   else f.size
  {
    hide Accepted; hide Base; hide Base32; hide MaxFileSize;
    if IsData(p, bpc, id) {
      AcceptedId(p, bpc);
      BaseBelowMax(p.tags.chunkId, bpc);
      WrappedSmaller(p.tags.chunkId, bpc);
    }
  }

  /** The size is recovered rightly if and only if nothing past 4 GB and newer than the newest header reaches further
      than that header's size and the newer pages below 4 GB.
   */
  lemma {:induction false} SizeRightIff(log: seq<Page>, bpc: nat, id: nat)
    requires bpc > 0
    ensures Scan(NewFile(bpc), log, bpc, id).size == Replay(log, bpc, id, false).size
       <==> WrappedEnd(log, bpc, id) <= KnownSize(log, bpc, id)
  {
    hide Scan; hide Replay; hide KnownSize; hide WrappedEnd; hide WrappedEnd32; hide MaxFileSize;
    ScanSize(NewFile(bpc), log, bpc, id);
    ReplaySize(log, bpc, id, false);
    WrappedIsSmaller(log, bpc, id);
  }

  // ----- together

  /** The file is one the scan gets right. */
  ghost predicate Recoverable(log: seq<Page>, bpc: nat, id: nat) {
    && (forall c: nat | c > 0 :: !Misjudged(log, bpc, id, c))
    && WrappedEnd(log, bpc, id) <= KnownSize(log, bpc, id)
  }

  /** For every log and every file: the scan recovers what the log means if and only if the file is recoverable. */
  lemma {:induction false} RecoveredIff(log: seq<Page>, bpc: nat, id: nat)
    requires bpc > 0
    ensures var g := Scan(NewFile(bpc), log, bpc, id);
      Content(g.chunks, g.size) == Replay(log, bpc, id, false) <==> Recoverable(log, bpc, id)
  {
    hide Scan; hide Replay; hide KnownSize; hide WrappedEnd; hide Misjudged;
    MapRightIff(log, bpc, id);
    SizeRightIff(log, bpc, id);
  }

  /** Files whose data begins below 4 GB are. */
  lemma {:induction false} Below4GRecoverable(log: seq<Page>, bpc: nat, id: nat)
    requires bpc > 0 && Below4G(log, bpc, id)
    ensures Recoverable(log, bpc, id)
  {
    hide Scan; hide Replay; hide Recoverable; hide Below4G;
    ScanIsReplay(log, bpc, id);
    RecoveredIff(log, bpc, id);
  }

  /** So is a file of which a newer header covers a chunk at 4 GB. */
  lemma {:induction false} HeaderCovers()
    ensures var data := Page(1000, Tags(true, false, 0x100, 0x20_0001, 100, 0x1000, 0, 0, false), 0x1000);
            var header := Page(1001, Tags(true, false, 0x100, 0, 0, 0x1000, 2 * LIMIT_32, 1, false), 0x1000);
            !Below4G([data, header], 2048, 0x100) && Recoverable([data, header], 2048, 0x100)
  {
    var data := Page(1000, Tags(true, false, 0x100, 0x20_0001, 100, 0x1000, 0, 0, false), 0x1000);
    var header := Page(1001, Tags(true, false, 0x100, 0, 0, 0x1000, 2 * LIMIT_32, 1, false), 0x1000);
    var log := [data, header];
    assert log[..1] == [data] && [data][..0] == [];
    assert log[0] == data && IsData(data, 2048, 0x100) && !PageBelow4G(data, 2048);
    assert WrappedEnd(log, 2048, 0x100) == 0;
    assert MaxFileSize(2048) > 2 * LIMIT_32 && ShrinkAfter(MaxFileSize(2048), header, true) == 2 * LIMIT_32;
    forall c: nat | c > 0 ensures !Misjudged(log, 2048, 0x100, c) {
      assert NewestOf(log, 2048, 0x100, c, MaxFileSize(2048), false) == NewestOf([data], 2048, 0x100, c, 2 * LIMIT_32, true);
      assert NewestOf([], 2048, 0x100, c, 2 * LIMIT_32, true) == None;
      assert NewestOf([data], 2048, 0x100, c, 2 * LIMIT_32, true) == if c == 0x20_0001 then Some(Newest(1000, 2 * LIMIT_32)) else None;
      assert c == 0x20_0001 ==> Base(c, 2048) == LIMIT_32;
    }
  }
}
