/** The short-op cache as a value, and what a reader sees through it: a cached chunk hides the stored one.
 */
module CacheView {
  type Bytes = seq<bv8>

  /** struct yaffs_cache; owner 0 is a free entry. */
  datatype Entry = Entry(owner: nat, chunkId: nat, lastUse: int, dirty: bool, nBytes: nat, data: Bytes)

  /** A chunk and how many of its bytes its tags count. */
  datatype Chunk = Chunk(data: Bytes, nBytes: nat)

  type Store = map<(nat, nat), Chunk>

  function Zeros(n: nat): (z: Bytes)
    ensures |z| == n && forall i | 0 <= i < n :: z[i] == 0
  {
    seq(n, i => 0)
  }

  predicate Holds(e: Entry, obj: nat, chunk: nat) {
    obj > 0 && e.owner == obj && e.chunkId == chunk
  }

  /** The first entry for a chunk, or -1. */
  function Find(c: seq<Entry>, obj: nat, chunk: nat): (i: int)
    ensures -1 <= i < |c|
    ensures i >= 0 ==> Holds(c[i], obj, chunk)
    ensures i < 0 ==> forall j | 0 <= j < |c| :: !Holds(c[j], obj, chunk)
  {
    if c == [] then -1
    else if Holds(c[0], obj, chunk) then 0
    else
      var r := Find(c[1..], obj, chunk);
      if r < 0 then -1 else r + 1
  }

  /** At most one entry for each chunk of each object. */
  ghost predicate Unique(c: seq<Entry>) {
    forall i, j | 0 <= i < j < |c| && c[i].owner > 0 :: !(c[j].owner == c[i].owner && c[j].chunkId == c[i].chunkId)
  }

  lemma FindIs(c: seq<Entry>, i: nat, obj: nat, chunk: nat)
    requires Unique(c) && i < |c| && Holds(c[i], obj, chunk)
    ensures Find(c, obj, chunk) == i
  {
    hide Find;
  }

  lemma FindNone(c: seq<Entry>, obj: nat, chunk: nat)
    requires forall j | 0 <= j < |c| :: !Holds(c[j], obj, chunk)
    ensures Find(c, obj, chunk) == -1
  {
    hide Find;
  }

  function Stored(s: Store, obj: nat, chunk: nat, bpc: nat): Chunk {
    if (obj, chunk) in s then s[(obj, chunk)] else Nothing(bpc)
  }

  function Nothing(bpc: nat): Chunk { Chunk(Zeros(bpc), 0) }

  /** What an entry stands for: the data it holds, and its count of bytes once it is dirty. */
  function EntryView(e: Entry, s: Store, bpc: nat): Chunk {
    Chunk(e.data, if e.dirty then e.nBytes else Stored(s, e.owner, e.chunkId, bpc).nBytes)
  }

  /** What reading a chunk gives, and the count of bytes it is or will be stored with. */
  function View(c: seq<Entry>, s: Store, obj: nat, chunk: nat, bpc: nat): Chunk {
    var i := Find(c, obj, chunk);
    if i >= 0 then EntryView(c[i], s, bpc) else Stored(s, obj, chunk, bpc)
  }

  /** Entries are unique and whole chunks, and a clean one agrees with the store. */
  ghost predicate Coherent(c: seq<Entry>, s: Store, bpc: nat) {
    && Unique(c)
    && (forall i | 0 <= i < |c| && c[i].owner > 0 :: EntryOk(c[i], s, bpc))
    && (forall k | k in s :: |s[k].data| == bpc)
  }

  ghost predicate EntryOk(e: Entry, s: Store, bpc: nat) {
    |e.data| == bpc && (!e.dirty ==> e.data == Stored(s, e.owner, e.chunkId, bpc).data)
  }

  lemma {:induction false} ViewLength(c: seq<Entry>, s: Store, obj: nat, chunk: nat, bpc: nat)
    requires Coherent(c, s, bpc)
    ensures |View(c, s, obj, chunk, bpc).data| == bpc
  {
    hide Find;
    var i := Find(c, obj, chunk);
    if i >= 0 { assert EntryOk(c[i], s, bpc); }
  }

  /** Nothing is seen differently. */
  ghost predicate SameView(c: seq<Entry>, s: Store, d: seq<Entry>, t: Store, bpc: nat) {
    forall obj: nat, chunk: nat :: View(d, t, obj, chunk, bpc) == View(c, s, obj, chunk, bpc)
  }

  /** One chunk is seen differently. */
  ghost predicate ChangedView(c: seq<Entry>, s: Store, d: seq<Entry>, t: Store, bpc: nat, obj: nat, chunk: nat, data: Chunk) {
    forall o: nat, k: nat :: View(d, t, o, k, bpc) == if o == obj && k == chunk then data else View(c, s, o, k, bpc)
  }

  lemma {:induction false} ViewOfEntry(c: seq<Entry>, s: Store, bpc: nat, i: nat)
    requires Unique(c) && i < |c| && c[i].owner > 0
    ensures View(c, s, c[i].owner, c[i].chunkId, bpc) == EntryView(c[i], s, bpc)
  {
    hide Find;
    FindIs(c, i, c[i].owner, c[i].chunkId);
  }

  /** Replacing entry i affects only the chunk it held and the chunk it holds. */
  lemma {:induction false} FindUpdate(c: seq<Entry>, i: nat, e: Entry, obj: nat, chunk: nat)
    requires i < |c| && Unique(c) && Unique(c[i := e]) && !Holds(c[i], obj, chunk) && !Holds(e, obj, chunk)
    ensures Find(c[i := e], obj, chunk) == Find(c, obj, chunk)
  {
    hide Find;
    var j := Find(c, obj, chunk);
    if j >= 0 {
      assert j != i;
      FindIs(c[i := e], j, obj, chunk);
    } else {
      FindNone(c[i := e], obj, chunk);
    }
  }

  /** A dirty entry is written to the store: flushing loses nothing. */
  lemma {:induction false} Flush(c: seq<Entry>, s: Store, bpc: nat, i: nat)
    requires Coherent(c, s, bpc) && i < |c| && c[i].owner > 0 && c[i].dirty
    ensures var d, t := c[i := c[i].(dirty := false)], s[(c[i].owner, c[i].chunkId) := Chunk(c[i].data, c[i].nBytes)];
            Coherent(d, t, bpc) && SameView(c, s, d, t, bpc)
  {
    hide Find;
    var e := c[i];
    var d, t := c[i := e.(dirty := false)], s[(e.owner, e.chunkId) := Chunk(e.data, e.nBytes)];
    assert EntryOk(e, s, bpc);
    forall j | 0 <= j < |d| && d[j].owner > 0 ensures EntryOk(d[j], t, bpc) {
      assert EntryOk(c[j], s, bpc);
      if j != i { assert !(c[j].owner == e.owner && c[j].chunkId == e.chunkId); }
    }
    forall obj: nat, chunk: nat ensures View(d, t, obj, chunk, bpc) == View(c, s, obj, chunk, bpc) {
      if Holds(e, obj, chunk) {
        FindIs(c, i, obj, chunk); FindIs(d, i, obj, chunk);
      } else {
        FindUpdate(c, i, e.(dirty := false), obj, chunk);
      }
    }
  }

  /** A clean entry is dropped. */
  lemma {:induction false} Drop(c: seq<Entry>, s: Store, bpc: nat, i: nat)
    requires Coherent(c, s, bpc) && i < |c| && (c[i].owner > 0 ==> !c[i].dirty)
    ensures var d := c[i := c[i].(owner := 0)]; Coherent(d, s, bpc) && SameView(c, s, d, s, bpc)
  {
    hide Find;
    var e := c[i];
    var d := c[i := e.(owner := 0)];
    forall j | 0 <= j < |d| && d[j].owner > 0 ensures EntryOk(d[j], s, bpc) {
      assert EntryOk(c[j], s, bpc);
    }
    forall obj: nat, chunk: nat ensures View(d, s, obj, chunk, bpc) == View(c, s, obj, chunk, bpc) {
      if Holds(e, obj, chunk) {
        FindIs(c, i, obj, chunk);
        forall j | 0 <= j < |d| ensures !Holds(d[j], obj, chunk) {
        }
        FindNone(d, obj, chunk);
        assert EntryOk(e, s, bpc);
      } else {
        FindUpdate(c, i, e.(owner := 0), obj, chunk);
      }
    }
  }

  /** A free entry takes a copy of a stored chunk that no entry holds. */
  lemma {:induction false} Load(c: seq<Entry>, s: Store, bpc: nat, i: nat, e: Entry)
    requires Coherent(c, s, bpc) && i < |c| && c[i].owner == 0
    requires e.owner > 0 && Find(c, e.owner, e.chunkId) < 0 && !e.dirty && e.data == Stored(s, e.owner, e.chunkId, bpc).data
    ensures var d := c[i := e]; Coherent(d, s, bpc) && SameView(c, s, d, s, bpc)
  {
    hide Find;
    var d := c[i := e];
    assert forall j | 0 <= j < |c| :: !Holds(c[j], e.owner, e.chunkId);
    assert Unique(d);
    forall j | 0 <= j < |d| && d[j].owner > 0 ensures EntryOk(d[j], s, bpc) {
      if j != i { assert EntryOk(c[j], s, bpc); }
    }
    forall obj: nat, chunk: nat ensures View(d, s, obj, chunk, bpc) == View(c, s, obj, chunk, bpc) {
      if Holds(e, obj, chunk) {
        FindIs(d, i, obj, chunk);
      } else {
        FindUpdate(c, i, e, obj, chunk);
      }
    }
  }

  /** Data is changed in an entry, which becomes dirty. */
  lemma {:induction false} Modify(c: seq<Entry>, s: Store, bpc: nat, i: nat, e: Entry)
    requires Coherent(c, s, bpc) && i < |c| && c[i].owner > 0
    requires e.owner == c[i].owner && e.chunkId == c[i].chunkId && |e.data| == bpc && e.dirty
    ensures var d := c[i := e]; Coherent(d, s, bpc) && ChangedView(c, s, d, s, bpc, e.owner, e.chunkId, Chunk(e.data, e.nBytes))
  {
    hide Find;
    var d := c[i := e];
    assert Unique(d);
    assert EntryOk(c[i], s, bpc);
    forall j | 0 <= j < |d| && d[j].owner > 0 ensures EntryOk(d[j], s, bpc) {
      if j != i { assert EntryOk(c[j], s, bpc); }
    }
    forall obj: nat, chunk: nat
      ensures View(d, s, obj, chunk, bpc) == if obj == e.owner && chunk == e.chunkId then Chunk(e.data, e.nBytes) else View(c, s, obj, chunk, bpc)
    {
      if Holds(e, obj, chunk) {
        FindIs(d, i, obj, chunk);
      } else {
        FindUpdate(c, i, e, obj, chunk);
      }
    }
  }

  /** A chunk that no entry holds is written to the store directly. */
  lemma {:induction false} WriteStore(c: seq<Entry>, s: Store, bpc: nat, obj: nat, chunk: nat, data: Chunk)
    requires Coherent(c, s, bpc) && obj > 0 && Find(c, obj, chunk) < 0 && |data.data| == bpc
    ensures var t := s[(obj, chunk) := data]; Coherent(c, t, bpc) && ChangedView(c, s, c, t, bpc, obj, chunk, data)
  {
    hide Find;
    var t := s[(obj, chunk) := data];
    assert forall j | 0 <= j < |c| :: !Holds(c[j], obj, chunk);
    forall j | 0 <= j < |c| && c[j].owner > 0 ensures EntryOk(c[j], t, bpc) {
      assert EntryOk(c[j], s, bpc) && !Holds(c[j], obj, chunk);
    }
  }

  /** A stored chunk that no entry holds is deleted: it reads as zeros. */
  lemma {:induction false} DeleteStore(c: seq<Entry>, s: Store, bpc: nat, obj: nat, chunk: nat)
    requires Coherent(c, s, bpc) && obj > 0 && Find(c, obj, chunk) < 0
    ensures var t := s - {(obj, chunk)}; Coherent(c, t, bpc) && ChangedView(c, s, c, t, bpc, obj, chunk, Nothing(bpc))
  {
    hide Find;
    var t := s - {(obj, chunk)};
    assert forall j | 0 <= j < |c| :: !Holds(c[j], obj, chunk);
    forall j | 0 <= j < |c| && c[j].owner > 0 ensures EntryOk(c[j], t, bpc) {
      assert EntryOk(c[j], s, bpc) && !Holds(c[j], obj, chunk);
    }
  }

  /** A whole chunk is written past the cache, and its entry, if any, forgotten. */
  lemma {:induction false} Bypass(c: seq<Entry>, s: Store, bpc: nat, obj: nat, chunk: nat, data: Chunk)
    requires Coherent(c, s, bpc) && obj > 0 && |data.data| == bpc
    ensures var t := s[(obj, chunk) := data];
            var i := Find(c, obj, chunk);
            var d := if i >= 0 then c[i := c[i].(owner := 0)] else c;
            Coherent(d, t, bpc) && ChangedView(c, s, d, t, bpc, obj, chunk, data)
  {
    hide Find;
    var i := Find(c, obj, chunk);
    if i < 0 {
      WriteStore(c, s, bpc, obj, chunk, data);
    } else {
      var e := c[i].(data := data.data, nBytes := data.nBytes, dirty := true);
      Modify(c, s, bpc, i, e);
      var c1 := c[i := e];
      Flush(c1, s, bpc, i);
      var c2, t := c1[i := e.(dirty := false)], s[(obj, chunk) := data];
      Drop(c2, t, bpc, i);
      var d, x := c[i := c[i].(owner := 0)], e.(dirty := false).(owner := 0);
      assert c2[i := x] == d[i := x];
      FreeEntries(d, i, x, t, bpc);
    }
  }

  /** What a free entry still contains does not matter. */
  lemma {:induction false} FreeEntries(d: seq<Entry>, i: nat, x: Entry, s: Store, bpc: nat)
    requires i < |d| && d[i].owner == 0 && x.owner == 0 && Coherent(d[i := x], s, bpc)
    ensures Coherent(d, s, bpc) && SameView(d[i := x], s, d, s, bpc)
  {
    hide Find;
    var e := d[i := x];
    forall j, k | 0 <= j < k < |d| && d[j].owner > 0 ensures !(d[k].owner == d[j].owner && d[k].chunkId == d[j].chunkId) {
      assert d[j] == e[j] && (k != i ==> d[k] == e[k]);
    }
    forall j | 0 <= j < |d| && d[j].owner > 0 ensures EntryOk(d[j], s, bpc) {
      assert d[j] == e[j] && EntryOk(e[j], s, bpc);
    }
    assert e[i := d[i]] == d;
    forall obj: nat, chunk: nat ensures View(d, s, obj, chunk, bpc) == View(e, s, obj, chunk, bpc) {
      FindUpdate(e, i, d[i], obj, chunk);
    }
  }

  /** The store holds something else than what is seen: the entry of the chunk has data written nowhere else. */
  ghost predicate Unstored(c: seq<Entry>, s: Store, obj: nat, chunk: nat, bpc: nat) {
    View(c, s, obj, chunk, bpc).data != Stored(s, obj, chunk, bpc).data
  }

  /** Only a dirty entry holds what the store does not. */
  lemma {:induction false} UnstoredIsDirty(c: seq<Entry>, s: Store, obj: nat, chunk: nat, bpc: nat)
    requires Coherent(c, s, bpc) && Unstored(c, s, obj, chunk, bpc)
    ensures var i := Find(c, obj, chunk); i >= 0 && c[i].dirty
  {
    hide Find;
    var i := Find(c, obj, chunk);
    if i >= 0 { assert EntryOk(c[i], s, bpc); }
  }

  /** Forgetting any entry brings back the stored chunk. */
  lemma {:induction false} Forget(c: seq<Entry>, s: Store, bpc: nat, i: nat)
    requires Coherent(c, s, bpc) && i < |c| && c[i].owner > 0
    ensures var d := c[i := c[i].(owner := 0)];
            && Coherent(d, s, bpc)
            && ChangedView(c, s, d, s, bpc, c[i].owner, c[i].chunkId, Stored(s, c[i].owner, c[i].chunkId, bpc))
  {
    hide Find;
    var e := c[i];
    var d := c[i := e.(owner := 0)];
    forall j | 0 <= j < |d| && d[j].owner > 0 ensures EntryOk(d[j], s, bpc) {
      assert EntryOk(c[j], s, bpc);
    }
    forall o: nat, k: nat
      ensures View(d, s, o, k, bpc) == if o == e.owner && k == e.chunkId then Stored(s, o, k, bpc) else View(c, s, o, k, bpc)
    {
      if Holds(e, o, k) {
        forall j | 0 <= j < |d| ensures !Holds(d[j], o, k) {
        }
        FindNone(d, o, k);
      } else {
        FindUpdate(c, i, e.(owner := 0), o, k);
      }
    }
  }

  /** Forgetting an entry is invisible exactly when the store holds the same data with the same count. */
  lemma {:induction false} ForgetUnseenIff(c: seq<Entry>, s: Store, bpc: nat, i: nat)
    requires Coherent(c, s, bpc) && i < |c| && c[i].owner > 0
    ensures SameView(c, s, c[i := c[i].(owner := 0)], s, bpc) <==> EntryView(c[i], s, bpc) == Stored(s, c[i].owner, c[i].chunkId, bpc)
  {
    hide Find;
    Forget(c, s, bpc, i);
    ViewOfEntry(c, s, bpc, i);
    hide View;
    var d, o, k := c[i := c[i].(owner := 0)], c[i].owner, c[i].chunkId;
    assert View(d, s, o, k, bpc) == Stored(s, o, k, bpc);
  }

  /** A byte written as 7 over a stored 5 reads as 5 again once its entry is forgotten. */
  lemma ForgottenByte()
    ensures var c, s := [Entry(1, 1, 0, true, 1, [7])], map[(1, 1) := Chunk([5], 1)];
            && Coherent(c, s, 1) && Unstored(c, s, 1, 1, 1)
            && View(c, s, 1, 1, 1).data == [7] && View(c[0 := c[0].(owner := 0)], s, 1, 1, 1).data == [5]
  {
    var c: seq<Entry>, s: Store := [Entry(1, 1, 0, true, 1, [7])], map[(1, 1) := Chunk([5], 1)];
    assert c[0].data[0] == 7 && s[(1, 1)].data[0] == 5;
    ViewOfEntry(c, s, 1, 0);
    Forget(c, s, 1, 0);
  }

  // ----- eviction

  /** The entry yaffs_grab_chunk_cache takes when none is free: the first of those used least recently. */
  ghost predicate IsVictim(c: seq<Entry>, i: nat) {
    && i < |c| && (forall j | 0 <= j < |c| :: c[j].owner > 0)
    && (forall j | 0 <= j < |c| :: c[i].lastUse <= c[j].lastUse && (j < i ==> c[i].lastUse < c[j].lastUse))
  }

  /** Room for a new entry is made at the cost of the entry of this chunk. */
  ghost predicate Evicts(c: seq<Entry>, obj: nat, chunk: nat) {
    exists i: nat :: IsVictim(c, i) && Holds(c[i], obj, chunk)
  }

  /** What the store holds of a chunk after room was made, or not, for another. */
  ghost function Saved(c: seq<Entry>, s: Store, bpc: nat, obj: nat, chunk: nat, grabbed: bool): Chunk {
    if grabbed && Evicts(c, obj, chunk) then View(c, s, obj, chunk, bpc) else Stored(s, obj, chunk, bpc)
  }

  /** The store has changed by the eviction, if any, and in one chunk. */
  ghost predicate StoreSettled(c: seq<Entry>, s: Store, t: Store, bpc: nat, grabbed: bool, obj: nat, chunk: nat) {
    forall o: nat, k: nat | !(o == obj && k == chunk) :: Stored(t, o, k, bpc) == Saved(c, s, bpc, o, k, grabbed)
  }

  /** The victim's data goes to the store. */
  lemma {:induction false} VictimStored(c: seq<Entry>, s: Store, t: Store, bpc: nat, i: nat)
    requires Coherent(c, s, bpc) && IsVictim(c, i)
    requires t == if c[i].dirty then s[(c[i].owner, c[i].chunkId) := Chunk(c[i].data, c[i].nBytes)] else s
    ensures forall o: nat, k: nat :: Stored(t, o, k, bpc) == Saved(c, s, bpc, o, k, true)
  {
    hide Find;
    assert EntryOk(c[i], s, bpc);
    ViewOfEntry(c, s, bpc, i);
    hide View;
    forall o: nat, k: nat ensures Stored(t, o, k, bpc) == Saved(c, s, bpc, o, k, true) {
      assert Holds(c[i], o, k) ==> Evicts(c, o, k);
    }
  }

  /** With a free entry nothing is evicted. */
  lemma NothingEvicted(c: seq<Entry>, s: Store, bpc: nat, i: nat)
    requires i < |c| && c[i].owner == 0
    ensures forall o: nat, k: nat :: Stored(s, o, k, bpc) == Saved(c, s, bpc, o, k, true)
  {
    hide View;
  }

  // ----- use stamps

  /** The clock after one more use: it starts again when it has run out. */
  function Clock(clock: int): int { if RunOut(clock) then 1 else clock + 1 }

  predicate RunOut(clock: int) { clock < 0 || clock > 100000000 }

  /** The entries after a use of entry i: when the clock starts again all stamps but that of entry 0 are cleared. */
  function Stamped(c: seq<Entry>, clock: int, i: nat): (d: seq<Entry>)
    requires i < |c|
    ensures |d| == |c|
  {
    seq(|c|, j requires 0 <= j < |c| =>
      c[j].(lastUse := if j == i then Clock(clock) else if RunOut(clock) && j > 0 then 0 else c[j].lastUse))
  }

  /** The entry used last has the latest stamp, and is not evicted while there is another, unless the clock has just run out:
      then, if and only if it is entry 0 or entry 0 was never used. Entry 0 otherwise stays the latest for a whole round of the clock.
   */
  lemma {:induction false} LatestIff(c: seq<Entry>, clock: nat, i: nat)
    requires i < |c| && forall j | 0 <= j < |c| :: 0 <= c[j].lastUse <= clock
    ensures (forall j | 0 <= j < |c| && j != i :: Stamped(c, clock, i)[j].lastUse < Stamped(c, clock, i)[i].lastUse)
       <==> clock <= 100000000 || i == 0 || c[0].lastUse == 0
    ensures clock <= 100000000 ==> forall j | 0 <= j < |c| :: 0 <= Stamped(c, clock, i)[j].lastUse <= Clock(clock)
    ensures clock <= 100000000 && |c| > 1 ==> !IsVictim(Stamped(c, clock, i), i)
  {
    var d := Stamped(c, clock, i);
    assert d[0].lastUse == if i == 0 then Clock(clock) else c[0].lastUse;
    if clock <= 100000000 && |c| > 1 {
      var j := if i == 0 then 1 else 0;
      assert d[j].lastUse < d[i].lastUse;
    }
  }
}
