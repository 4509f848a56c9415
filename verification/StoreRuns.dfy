/** Every run of chunk operations and collections: the live objects hold what the operations say, whatever the
    collector moved in between.
 */
module StoreRuns {
  import opened FlashBlocks
  import opened References
  import opened ChunkAllocator
  import opened FileStore

  datatype Kept = NoHeader | Kept(rest: seq<int>)

  /** What an object holds: its data chunks, the lasting part of its header and its stored size. */
  datatype Held = Held(isFile: bool, data: map<nat, seq<int>>, header: Kept, size: nat)

  type Contents = map<nat, Held>

  datatype Op =
    | Create(id: nat, isFile: bool)
    | Write(id: nat, k: nat, bytes: seq<int>)
    | WriteHeader(id: nat, isShrink: bool, shadows: nat, rest: seq<int>, unlinked: bool)
    | SetSize(id: nat, size: nat)
    | Drop(id: nat, k: nat)
    | Delete(id: nat)
    | Collect
    | SkipBlock
    | Invalidate
    | Checkpoint(chosen: seq<nat>)

  /** The part of a header that says what the object is; the collector resets the rest. */
  function Lasting(p: Payload): seq<int> {
    match p
    case Data(bytes) => bytes
    case Header(_, _, _, rest) => rest
  }

  /** The data chunks of an object. */
  ghost function DataOf(o: Object, nand: map<nat, Written>): map<nat, seq<int>> {
    map k | k in o.chunks && o.chunks[k] in nand :: Lasting(nand[o.chunks[k]].payload)
  }

  ghost function HeaderOf(o: Object, nand: map<nat, Written>): Kept {
    if o.hdr > 0 && o.hdr in nand then Kept(Lasting(nand[o.hdr].payload)) else NoHeader
  }

  ghost function HeldOf(o: Object, nand: map<nat, Written>): Held {
    Held(o.isFile, DataOf(o, nand), HeaderOf(o, nand), o.storedSize)
  }

  /** What the live objects hold. */
  ghost function ContentsOf(objects: map<nat, Object>, nand: map<nat, Written>): Contents {
    map id | id in objects && !objects[id].softDeleted :: HeldOf(objects[id], nand)
  }

  function Put(m: map<nat, seq<int>>, k: nat, bytes: seq<int>): map<nat, seq<int>> { m[k := bytes] }

  function Without(m: map<nat, seq<int>>, k: nat): map<nat, seq<int>> { map j | j in m && j != k :: m[j] }

  /** A stored size after a write of n bytes to chunk k, whether or not there was space for it. */
  function Grown(size: nat, k: nat, n: nat, chunkBytes: nat): nat
    requires k > 0
  {
    var end := ((k - 1) * chunkBytes + n) % 0x1_0000_0000;
    if size < end then end else size
  }

  /** What an operation does to the contents; ok tells whether it succeeded. */
  function After(c: Contents, op: Op, ok: bool, chunkBytes: nat): Contents {
    match op
    case Create(id, isFile) => if ok then c[id := Held(isFile, map[], NoHeader, 0)] else c
    case Write(id, k, bytes) =>
      if id in c && c[id].isFile && k > 0 then
        c[id := c[id].(data := if ok then Put(c[id].data, k, bytes) else c[id].data, size := Grown(c[id].size, k, |bytes|, chunkBytes))]
      else c
    case WriteHeader(id, _, _, rest, _) => if ok && id in c then c[id := c[id].(header := Kept(rest))] else c
    case SetSize(id, size) => if ok && id in c then c[id := c[id].(size := size)] else c
    case Drop(id, k) => if ok && id in c then c[id := c[id].(data := Without(c[id].data, k))] else c
    case Delete(id) => if ok then c - {id} else c
    case Collect => c
    case SkipBlock => c
    case Invalidate => c
    case Checkpoint(_) => c
  }

  // ----- what the headers on flash say

  /** For each object, all that its header on flash may say. */
  type Sayings = map<nat, set<Payload>>

  ghost predicate HeadersSay(objects: map<nat, Object>, nand: map<nat, Written>, t: Sayings) {
    forall id | id in objects && !objects[id].softDeleted && objects[id].hdr > 0 ::
      objects[id].hdr in nand && id in t && nand[objects[id].hdr].payload in t[id]
  }

  /** A header as the collector writes it for an object. */
  function Anew(p: Payload, h: Held): Payload {
    if p.Header? then Header(if h.isFile then h.size else p.size, false, 0, p.rest) else p
  }

  /** A header says what it was written with, or what a collection since then made of it. */
  function SayingsAfter(t: Sayings, c: Contents, op: Op, ok: bool): Sayings {
    match op
    case Create(id, _) => if ok then t[id := {}] else t
    case WriteHeader(id, isShrink, shadows, rest, unlinked) =>
      if ok && id in c then t[id := {Header(if c[id].isFile && !unlinked then c[id].size else 0, isShrink, shadows, rest)}] else t
    case Collect => map id | id in t && id in c :: t[id] + set p | p in t[id] :: Anew(p, c[id])
    case _ => t
  }

  /** Others kept their views, and what the header of object id says is allowed for. */
  lemma {:induction false} OneSays(os: map<nat, Object>, m: map<nat, Written>, ps: map<nat, Object>, n: map<nat, Written>, id: nat, t: Sayings, u: Sayings)
    requires HeadersSay(os, m, t) && forall x | x in t && x != id :: x in u && u[x] == t[x]
    requires forall x | x in ps && x != id :: x in os && SameView(os[x], m, ps[x], n)
    requires id in ps && !ps[id].softDeleted && ps[id].hdr > 0 ==> ps[id].hdr in n && id in u && n[ps[id].hdr].payload in u[id]
    ensures HeadersSay(ps, n, u)
  {
    hide SameView;
    forall x | x in ps && x != id && !ps[x].softDeleted && ps[x].hdr > 0 ensures ps[x].hdr in n && x in u && n[ps[x].hdr].payload in u[x] {
      SaysTheSame(os[x], m, ps[x], n);
    }
  }

  lemma SaysTheSame(o: Object, m: map<nat, Written>, p: Object, n: map<nat, Written>)
    requires SameView(o, m, p, n)
    ensures p.softDeleted == o.softDeleted && (p.hdr > 0 <==> o.hdr > 0)
    ensures o.hdr > 0 ==> o.hdr in m && p.hdr in n && n[p.hdr].payload == m[o.hdr].payload
  {
  }

  lemma SaysSomething(objects: map<nat, Object>, nand: map<nat, Written>, t: Sayings, id: nat)
    requires HeadersSay(objects, nand, t) && id in objects && !objects[id].softDeleted && objects[id].hdr > 0
    ensures objects[id].hdr in nand && id in t && nand[objects[id].hdr].payload in t[id]
  {
  }

  lemma {:induction false} AllSay(os: map<nat, Object>, m: map<nat, Written>, ps: map<nat, Object>, n: map<nat, Written>, t: Sayings)
    requires HeadersSay(os, m, t) && SameViews(os, m, ps, n)
    ensures HeadersSay(ps, n, t)
  {
    hide SameView;
    forall x | x in ps && !ps[x].softDeleted && ps[x].hdr > 0 ensures ps[x].hdr in n && x in t && n[ps[x].hdr].payload in t[x] {
      SaysTheSame(os[x], m, ps[x], n);
    }
  }

  lemma {:induction false} CollectedSay(os: map<nat, Object>, m: map<nat, Written>, ps: map<nat, Object>, n: map<nat, Written>, t: Sayings)
    requires HeadersSay(os, m, t) && CollectedViews(os, m, ps, n)
    ensures HeadersSay(ps, n, SayingsAfter(t, ContentsOf(os, m), Collect, true))
  {
    hide CollectedView; hide ContentsOf;
    var c := ContentsOf(os, m);
    forall x | x in ps && !ps[x].softDeleted && ps[x].hdr > 0
      ensures var u := SayingsAfter(t, c, Collect, true); ps[x].hdr in n && x in u && n[ps[x].hdr].payload in u[x]
    {
      assert CollectedView(os[x], m, ps[x], n);
      InContents(os, m, x);
      SaysAnew(os[x], m, ps[x], n);
    }
  }

  lemma SaysAnew(o: Object, m: map<nat, Written>, p: Object, n: map<nat, Written>)
    requires CollectedView(o, m, p, n)
    ensures p.softDeleted == o.softDeleted && (p.hdr > 0 <==> o.hdr > 0)
    ensures o.hdr > 0 ==> o.hdr in m && p.hdr in n && n[p.hdr].payload in {m[o.hdr].payload, Anew(m[o.hdr].payload, HeldOf(o, m))}
  {
    hide DataOf;
  }

  // ----- what the operations do to the contents

  lemma {:induction false} SameHeld(o: Object, m: map<nat, Written>, p: Object, n: map<nat, Written>)
    requires SameView(o, m, p, n) || CollectedView(o, m, p, n)
    ensures HeldOf(o, m) == HeldOf(p, n)
  {
    var a, b := DataOf(o, m), DataOf(p, n);
    forall k | k in o.chunks ensures k in a && k in b && a[k] == b[k] {
      assert k in p.chunks;
      assert SameChunk(m, o.chunks[k], n, p.chunks[k]);
    }
    assert a.Keys == b.Keys;
  }

  lemma {:induction false} SameContents(os: map<nat, Object>, m: map<nat, Written>, ps: map<nat, Object>, n: map<nat, Written>)
    requires CollectedViews(os, m, ps, n)
    ensures ContentsOf(ps, n) == ContentsOf(os, m)
  {
    hide CollectedView; hide HeldOf;
    var a, b := ContentsOf(os, m), ContentsOf(ps, n);
    forall id | id in ps ensures ps[id].softDeleted == os[id].softDeleted && HeldOf(os[id], m) == HeldOf(ps[id], n) {
      SoftKept(os[id], m, ps[id], n);
      SameHeld(os[id], m, ps[id], n);
    }
    assert a.Keys == b.Keys;
  }

  /** Other objects kept their views, and object id holds something new. */
  lemma {:induction false} OneChanged(os: map<nat, Object>, m: map<nat, Written>, ps: map<nat, Object>, n: map<nat, Written>, id: nat)
    requires id in os && id in ps && !os[id].softDeleted && !ps[id].softDeleted
    requires forall x | x in os && x != id && !os[x].softDeleted :: x in ps
    requires forall x | x in ps && x != id :: x in os && SameView(os[x], m, ps[x], n)
    ensures ContentsOf(ps, n) == ContentsOf(os, m)[id := HeldOf(ps[id], n)]
  {
    hide SameView; hide HeldOf;
    var a, b := ContentsOf(os, m)[id := HeldOf(ps[id], n)], ContentsOf(ps, n);
    forall x | x in ps && x != id ensures ps[x].softDeleted == os[x].softDeleted && HeldOf(os[x], m) == HeldOf(ps[x], n) {
      SoftKept(os[x], m, ps[x], n);
      SameHeld(os[x], m, ps[x], n);
    }
    assert a.Keys == b.Keys;
  }

  lemma {:induction false} WrittenHeld(o: Object, m: map<nat, Written>, p: Object, n: map<nat, Written>, k: nat, bytes: seq<int>)
    requires WroteChunk(o, m, p, n, k, bytes, |bytes|) && p == o.(chunks := p.chunks, nData := p.nData)
    requires forall j | j in o.chunks :: o.chunks[j] in m
    ensures HeldOf(p, n) == HeldOf(o, m).(data := Put(DataOf(o, m), k, bytes))
  {
    hide SameView;
    var a, b := DataOf(o, m)[k := bytes], DataOf(p, n);
    forall j | j in p.chunks ensures j in a && j in b && a[j] == b[j] {
      if j != k { assert SameChunk(m, o.chunks[j], n, p.chunks[j]); }
    }
    assert a.Keys == b.Keys;
  }

  lemma {:induction false} HeaderHeld(o: Object, m: map<nat, Written>, p: Object, n: map<nat, Written>)
    requires p == o.(hdr := p.hdr) && p.hdr > 0 && p.hdr in n
    requires forall j | j in o.chunks :: SameChunk(m, o.chunks[j], n, p.chunks[j])
    ensures HeldOf(p, n) == HeldOf(o, m).(header := Kept(Lasting(n[p.hdr].payload)))
  {
    hide Lasting;
    var a, b := DataOf(o, m), DataOf(p, n);
    forall j | j in p.chunks ensures j in a && j in b && a[j] == b[j] {
      assert SameChunk(m, o.chunks[j], n, p.chunks[j]);
    }
    assert a.Keys == b.Keys;
  }

  lemma {:induction false} DroppedHeld(o: Object, m: map<nat, Written>, p: Object, n: map<nat, Written>, k: nat)
    requires forall j :: j in p.chunks <==> j in o.chunks && j != k
    requires forall j | j in p.chunks :: p.chunks[j] == o.chunks[j] && SameChunk(m, p.chunks[j], n, p.chunks[j])
    requires p == o.(chunks := p.chunks, nData := p.nData) && (o.hdr > 0 ==> SameChunk(m, o.hdr, n, o.hdr))
    ensures HeldOf(p, n) == HeldOf(o, m).(data := Without(DataOf(o, m), k))
  {
    hide Lasting;
    var a, b := Without(DataOf(o, m), k), DataOf(p, n);
    forall j | j in p.chunks ensures j in a && j in b && a[j] == b[j] {
      assert SameChunk(m, p.chunks[j], n, p.chunks[j]);
    }
  }

  /** Chunks of an object are on flash. */
  lemma {:induction false} OnFlash(objects: map<nat, Object>, softOf: SoftOf, used: iset<nat>, soft: iset<nat>, nand: map<nat, Written>, id: nat)
    requires Linked(objects, softOf, used, soft, nand) && id in objects
    ensures forall k | k in objects[id].chunks :: objects[id].chunks[k] in nand
  {
    assert ObjectOk(id, objects[id], softOf[id], used, soft, nand);
    forall k | k in objects[id].chunks ensures objects[id].chunks[k] in nand {
      assert RefOk(objects[id].chunks[k], id, k, used, soft, nand);
    }
  }

  lemma InContents(objects: map<nat, Object>, nand: map<nat, Written>, id: nat)
    ensures id in ContentsOf(objects, nand) <==> id in objects && !objects[id].softDeleted
    ensures id in ContentsOf(objects, nand) ==> ContentsOf(objects, nand)[id] == HeldOf(objects[id], nand)
  {
    hide HeldOf;
  }

  lemma RaisedHeld(o: Object, m: map<nat, Written>, k: nat, n: nat, chunkBytes: nat)
    requires k > 0
    ensures HeldOf(Raised(o, k, n, chunkBytes), m) == HeldOf(o, m).(size := Grown(o.storedSize, k, n, chunkBytes))
  {
  }

  method StepWrite(s: Store, id: nat, k: nat, bytes: seq<int>, ghost t: Sayings) returns (ok: bool)
    requires s.Inv() && id in s.objects && !s.objects[id].softDeleted && s.objects[id].isFile && k > 0
    requires HeadersSay(s.objects, s.dev.nand, t)
    modifies s, s.dev
    ensures s.Inv() && HeadersSay(s.objects, s.dev.nand, t)
    ensures ContentsOf(s.objects, s.dev.nand) == After(old(ContentsOf(s.objects, s.dev.nand)), Write(id, k, bytes), ok, s.chunkBytes)
  {
    hide SameView; hide DataOf; hide HeaderOf; hide ContentsOf; hide Linked; hide Store.InvWhile; hide Grown; hide Raised; hide HeadersSay;
    ghost var os, m := s.objects, s.dev.nand;
    Known(s, id);
    InContents(os, m, id);
    var reserve: bool := *;
    var chunk := s.WrDataObj(id, k, bytes, |bytes|, reserve);
    ok := chunk >= 0;
    ghost var o := Raised(os[id], k, |bytes|, s.chunkBytes);
    RaisedHeld(os[id], m, k, |bytes|, s.chunkBytes);
    RaisedSize(os[id], k, |bytes|, s.chunkBytes);
    if ok {
      WrittenHeld(o, m, s.objects[id], s.dev.nand, k, bytes);
    } else {
      SaysTheSame(o, m, s.objects[id], s.dev.nand);
      SameHeld(o, m, s.objects[id], s.dev.nand);
    }
    OneChanged(os, m, s.objects, s.dev.nand, id);
    if os[id].hdr > 0 { SaysSomething(os, m, t, id); }
    OneSays(os, m, s.objects, s.dev.nand, id, t, t);
  }

  lemma Known(s: Store, id: nat)
    requires s.Inv() && id in s.objects
    ensures forall k | k in s.objects[id].chunks :: s.objects[id].chunks[k] in s.dev.nand
  {
    hide Linked; hide UsedChunks; hide SoftChunks;
    OnFlash(s.objects, s.softOf, s.dev.Used(), s.dev.Soft(), s.dev.nand, id);
  }

  method StepHeader(s: Store, id: nat, isShrink: bool, shadows: nat, rest: seq<int>, unlinked: bool, ghost t: Sayings)
    returns (ok: bool)
    requires s.Inv() && id in s.objects && !s.objects[id].softDeleted && HeadersSay(s.objects, s.dev.nand, t)
    modifies s, s.dev
    ensures s.Inv()
    ensures HeadersSay(s.objects, s.dev.nand,
                       SayingsAfter(t, old(ContentsOf(s.objects, s.dev.nand)), WriteHeader(id, isShrink, shadows, rest, unlinked), ok))
    ensures ContentsOf(s.objects, s.dev.nand)
         == After(old(ContentsOf(s.objects, s.dev.nand)), WriteHeader(id, isShrink, shadows, rest, unlinked), ok, s.chunkBytes)
  {
    hide SameView; hide DataOf; hide HeaderOf; hide ContentsOf; hide Linked; hide Store.InvWhile; hide SameChunk; hide HeadersSay;
    ghost var os, m := s.objects, s.dev.nand;
    InContents(os, m, id);
    var chunk := s.UpdateHeader(id, 0, isShrink, shadows, rest, unlinked);
    ok := chunk >= 0;
    if ok {
      HeaderHeld(os[id], m, s.objects[id], s.dev.nand);
    } else {
      SaysTheSame(os[id], m, s.objects[id], s.dev.nand);
      SameHeld(os[id], m, s.objects[id], s.dev.nand);
      if os[id].hdr > 0 { SaysSomething(os, m, t, id); }
    }
    OneChanged(os, m, s.objects, s.dev.nand, id);
    OneSays(os, m, s.objects, s.dev.nand, id, t, SayingsAfter(t, ContentsOf(os, m), WriteHeader(id, isShrink, shadows, rest, unlinked), ok));
  }

  method StepSize(s: Store, id: nat, size: nat, ghost t: Sayings)
    requires s.Inv() && id in s.objects && !s.objects[id].softDeleted && HeadersSay(s.objects, s.dev.nand, t)
    modifies s, s.dev
    ensures s.Inv() && HeadersSay(s.objects, s.dev.nand, t)
    ensures ContentsOf(s.objects, s.dev.nand) == After(old(ContentsOf(s.objects, s.dev.nand)), SetSize(id, size), true, s.chunkBytes)
  {
    hide SameView; hide ContentsOf; hide Linked;
    ghost var os, m := s.objects, s.dev.nand;
    InContents(os, m, id);
    ViewsOfThemselves(os, s.softOf, s.dev.Used(), s.dev.Soft(), m);
    s.SetStoredSize(id, size);
    assert HeldOf(s.objects[id], m) == HeldOf(os[id], m).(size := size);
    OneChanged(os, m, s.objects, s.dev.nand, id);
    OneSays(os, m, s.objects, s.dev.nand, id, t, t);
  }

  method StepDrop(s: Store, id: nat, k: nat, ghost t: Sayings)
    requires s.Inv() && id in s.objects && !s.objects[id].softDeleted && k in s.objects[id].chunks && HeadersSay(s.objects, s.dev.nand, t)
    modifies s, s.dev
    ensures s.Inv() && HeadersSay(s.objects, s.dev.nand, t)
    ensures ContentsOf(s.objects, s.dev.nand) == After(old(ContentsOf(s.objects, s.dev.nand)), Drop(id, k), true, s.chunkBytes)
  {
    hide SameView; hide DataOf; hide HeaderOf; hide ContentsOf; hide Linked; hide Store.InvWhile; hide HeadersSay;
    ghost var os, m := s.objects, s.dev.nand;
    InContents(os, m, id);
    s.DeleteChunk(id, k);
    DroppedHeld(os[id], m, s.objects[id], s.dev.nand, k);
    OneChanged(os, m, s.objects, s.dev.nand, id);
    if os[id].hdr > 0 { SaysSomething(os, m, t, id); }
    OneSays(os, m, s.objects, s.dev.nand, id, t, t);
  }

  /** An object is gone, or only soft-deleted: either way it holds nothing any more. */
  lemma {:induction false} OneGone(os: map<nat, Object>, m: map<nat, Written>, ps: map<nat, Object>, n: map<nat, Written>, id: nat)
    requires id in os && (id in ps ==> ps[id].softDeleted)
    requires forall x | x in os && x != id && !os[x].softDeleted :: x in ps
    requires forall x | x in ps && x != id :: x in os && SameView(os[x], m, ps[x], n)
    ensures ContentsOf(ps, n) == ContentsOf(os, m) - {id}
  {
    hide SameView; hide HeldOf;
    var a, b := ContentsOf(os, m) - {id}, ContentsOf(ps, n);
    forall x | x in ps && x != id ensures ps[x].softDeleted == os[x].softDeleted && HeldOf(os[x], m) == HeldOf(ps[x], n) {
      SoftKept(os[x], m, ps[x], n);
      SameHeld(os[x], m, ps[x], n);
    }
    assert a.Keys == b.Keys;
  }

  method StepDelete(s: Store, id: nat, ghost t: Sayings)
    requires s.Inv() && id in s.objects && !s.objects[id].softDeleted && s.objects[id].isFile && HeadersSay(s.objects, s.dev.nand, t)
    modifies s, s.dev
    ensures s.Inv() && HeadersSay(s.objects, s.dev.nand, t)
    ensures ContentsOf(s.objects, s.dev.nand) == After(old(ContentsOf(s.objects, s.dev.nand)), Delete(id), true, s.chunkBytes)
  {
    hide SameView; hide HeldOf; hide ContentsOf; hide SameViews; hide Linked; hide Settled; hide Doomed; hide AllKnown;
    hide Recount; hide CountIn; hide AllOk; hide AllocOk; hide HeadersSay;
    ghost var os, m := s.objects, s.dev.nand;
    ViewsOfThemselves(os, s.softOf, s.dev.Used(), s.dev.Soft(), m);
    s.SoftDelFile(id);
    OneGone(os, m, s.objects, s.dev.nand, id);
    OneSays(os, m, s.objects, s.dev.nand, id, t, t);
  }

  lemma {:induction false} ViewsOfThemselves(objects: map<nat, Object>, softOf: SoftOf, used: iset<nat>, soft: iset<nat>, nand: map<nat, Written>)
    requires Linked(objects, softOf, used, soft, nand)
    ensures forall x | x in objects :: SameView(objects[x], nand, objects[x], nand)
  {
    hide SameView; hide Linked;
    SameViewsSelf(objects, softOf, used, soft, nand);
  }

  method StepCreate(s: Store, id: nat, isFile: bool, ghost t: Sayings) returns (ok: bool)
    requires s.Inv() && HeadersSay(s.objects, s.dev.nand, t)
    modifies s, s.dev
    ensures s.Inv()
    ensures HeadersSay(s.objects, s.dev.nand, SayingsAfter(t, old(ContentsOf(s.objects, s.dev.nand)), Create(id, isFile), ok))
    ensures ContentsOf(s.objects, s.dev.nand) == After(old(ContentsOf(s.objects, s.dev.nand)), Create(id, isFile), ok, s.chunkBytes)
  {
    hide SameView; hide Linked; hide Settled; hide Doomed; hide AllKnown; hide Recount; hide CountIn; hide AllOk; hide AllocOk;
    ghost var os, m := s.objects, s.dev.nand;
    ok := s.CreateObject(id, isFile);
    if ok { OneNew(os, m, id, s.objects[id]); }
  }

  lemma OneNew(os: map<nat, Object>, m: map<nat, Written>, id: nat, o: Object)
    requires id !in os && o == Object(0, map[], false, 0, o.isFile, 0)
    ensures ContentsOf(os[id := o], m) == ContentsOf(os, m)[id := Held(o.isFile, map[], NoHeader, 0)]
  {
    assert DataOf(o, m) == map[];
    assert HeldOf(o, m) == Held(o.isFile, map[], NoHeader, 0);
    hide HeldOf;
    var a, b := ContentsOf(os, m)[id := Held(o.isFile, map[], NoHeader, 0)], ContentsOf(os[id := o], m);
    assert a.Keys == b.Keys;
  }

  /** A live object of the store. */
  predicate Live(s: Store, id: nat)
    reads s
  {
    id in s.objects && !s.objects[id].softDeleted
  }

  /** One operation of the file system, refused when the object or chunk is not there. */
  method StepFile(s: Store, op: Op, ghost t: Sayings) returns (ok: bool)
    requires s.Inv() && (op.Create? || op.Write? || op.WriteHeader? || op.SetSize? || op.Drop? || op.Delete?)
    requires HeadersSay(s.objects, s.dev.nand, t)
    modifies s, s.dev
    ensures s.Inv() && HeadersSay(s.objects, s.dev.nand, SayingsAfter(t, old(ContentsOf(s.objects, s.dev.nand)), op, ok))
    ensures ContentsOf(s.objects, s.dev.nand) == After(old(ContentsOf(s.objects, s.dev.nand)), op, ok, s.chunkBytes)
  {
    hide ContentsOf; hide Store.Inv; hide HeadersSay;
    ok := false;
    if !op.Create? { InContents(s.objects, s.dev.nand, op.id); }
    match op
    case Create(id, isFile) =>
      ok := StepCreate(s, id, isFile, t);
    case Write(id, k, bytes) =>
      if Live(s, id) && s.objects[id].isFile && k > 0 {
        ok := StepWrite(s, id, k, bytes, t);
      }
    case WriteHeader(id, isShrink, shadows, rest, unlinked) =>
      if Live(s, id) {
        ok := StepHeader(s, id, isShrink, shadows, rest, unlinked, t);
      }
    case SetSize(id, size) =>
      if Live(s, id) {
        StepSize(s, id, size, t);
        ok := true;
      }
    case Drop(id, k) =>
      if Live(s, id) && k in s.objects[id].chunks {
        StepDrop(s, id, k, t);
        ok := true;
      }
    case Delete(id) =>
      if Live(s, id) && s.objects[id].isFile {
        StepDelete(s, id, t);
        ok := true;
      }
  }

  /** One thing the device does on its own: nothing that any object holds changes. */
  method StepDevice(s: Store, op: Op, ghost t: Sayings) returns (ok: bool)
    requires s.Inv() && (op.Collect? || op.SkipBlock? || op.Invalidate? || op.Checkpoint?) && HeadersSay(s.objects, s.dev.nand, t)
    modifies s, s.dev
    ensures s.Inv() && HeadersSay(s.objects, s.dev.nand, SayingsAfter(t, old(ContentsOf(s.objects, s.dev.nand)), op, ok))
    ensures ContentsOf(s.objects, s.dev.nand) == old(ContentsOf(s.objects, s.dev.nand))
  {
    hide ContentsOf; hide Store.Inv; hide SameViews; hide CollectedViews; hide HeadersSay;
    ghost var os, m := s.objects, s.dev.nand;
    ok := true;
    match op {
      case Collect =>
        var block: int, aggressive: bool := *, *;
        ok := s.CheckGc(block, aggressive);
      case SkipBlock => s.SkipRest();
      case Invalidate => s.InvalidateCheckpt();
      case Checkpoint(chosen) => ok := s.SaveCheckpt(chosen);
    }
    if op.Collect? {
      CollectedSay(os, m, s.objects, s.dev.nand, t);
    } else {
      AllSay(os, m, s.objects, s.dev.nand, t);
      Unmoved(os, m, s.objects, s.dev.nand);
    }
    SameContents(os, m, s.objects, s.dev.nand);
  }

  method Step(s: Store, op: Op, ghost t: Sayings) returns (ok: bool)
    requires s.Inv() && HeadersSay(s.objects, s.dev.nand, t)
    modifies s, s.dev
    ensures s.Inv() && HeadersSay(s.objects, s.dev.nand, SayingsAfter(t, old(ContentsOf(s.objects, s.dev.nand)), op, ok))
    ensures ContentsOf(s.objects, s.dev.nand) == After(old(ContentsOf(s.objects, s.dev.nand)), op, ok, s.chunkBytes)
  {
    hide ContentsOf; hide Store.Inv; hide HeadersSay;
    if op.Collect? || op.SkipBlock? || op.Invalidate? || op.Checkpoint? {
      ok := StepDevice(s, op, t);
    } else {
      ok := StepFile(s, op, t);
    }
  }

  /** What a run of operations with their outcomes means. */
  function Meaning(ops: seq<Op>, oks: seq<bool>, chunkBytes: nat): Contents
    requires |ops| == |oks|
  {
    if ops == [] then map[]
    else
      var n := |ops| - 1;
      After(Meaning(ops[..n], oks[..n], chunkBytes), ops[n], oks[n], chunkBytes)
  }

  /** All that the headers on flash may say after a run. */
  function MaySay(ops: seq<Op>, oks: seq<bool>, chunkBytes: nat): Sayings
    requires |ops| == |oks|
  {
    if ops == [] then map[]
    else
      var n := |ops| - 1;
      SayingsAfter(MaySay(ops[..n], oks[..n], chunkBytes), Meaning(ops[..n], oks[..n], chunkBytes), ops[n], oks[n])
  }

  /** Every header that file id may have on flash says its size. */
  ghost predicate SaysSize(t: Sayings, c: Contents, id: nat) {
    id in c && c[id].isFile && id in t && forall p | p in t[id] :: p.Header? && p.size == c[id].size
  }

  /** Operations that set the size of file id, or write a header without it. */
  predicate Resizes(op: Op, id: nat) {
    match op
    case Create(i, _) => i == id
    case Write(i, _, _) => i == id
    case WriteHeader(i, _, _, _, unlinked) => i == id && unlinked
    case SetSize(i, _) => i == id
    case Delete(i) => i == id
    case _ => false
  }

  lemma SizeKept(t: Sayings, c: Contents, op: Op, ok: bool, chunkBytes: nat, id: nat)
    requires SaysSize(t, c, id) && !Resizes(op, id)
    ensures SaysSize(SayingsAfter(t, c, op, ok), After(c, op, ok, chunkBytes), id)
  {
  }

  /** Once a file's header is written, the header on flash says the file's size until that changes, however often the
      file is collected.
   */
  lemma {:induction false} SizeSaid(ops: seq<Op>, oks: seq<bool>, n: nat, chunkBytes: nat, id: nat)
    requires n < |ops| == |oks| && ops[n].WriteHeader? && ops[n].id == id && !ops[n].unlinked && oks[n]
    requires var c := Meaning(ops[..n], oks[..n], chunkBytes); id in c && c[id].isFile
    requires forall i | n < i < |ops| :: !Resizes(ops[i], id)
    ensures SaysSize(MaySay(ops, oks, chunkBytes), Meaning(ops, oks, chunkBytes), id)
  {
    hide Resizes;
    var k := |ops| - 1;
    if n < k {
      hide After; hide SayingsAfter; hide SaysSize;
      assert ops[..k][..n] == ops[..n] && oks[..k][..n] == oks[..n];
      SizeSaid(ops[..k], oks[..k], n, chunkBytes, id);
      SizeKept(MaySay(ops[..k], oks[..k], chunkBytes), Meaning(ops[..k], oks[..k], chunkBytes), ops[k], oks[k], chunkBytes, id);
    }
  }

  lemma MeaningStep(ops: seq<Op>, i: nat, oks: seq<bool>, ok: bool, chunkBytes: nat)
    requires i < |ops| && |oks| == i
    ensures Meaning(ops[..i + 1], oks + [ok], chunkBytes) == After(Meaning(ops[..i], oks, chunkBytes), ops[i], ok, chunkBytes)
    ensures MaySay(ops[..i + 1], oks + [ok], chunkBytes)
         == SayingsAfter(MaySay(ops[..i], oks, chunkBytes), Meaning(ops[..i], oks, chunkBytes), ops[i], ok)
  {
    hide After; hide SayingsAfter;
    assert ops[..i + 1][..i] == ops[..i] && (oks + [ok])[..i] == oks;
  }

  /** Any run, with any writes, erasures and markings failing: the counters stay right, every chunk in use has one
      owner, the live objects hold what the operations say, and their headers say what they were written with or the size
      of the file when it was last collected.
   */
  method Run(s: Store, ops: seq<Op>) returns (oks: seq<bool>)
    requires s.Inv() && s.objects == map[]
    modifies s, s.dev
    ensures s.Inv() && |oks| == |ops|
    ensures ContentsOf(s.objects, s.dev.nand) == Meaning(ops, oks, s.chunkBytes)
    ensures HeadersSay(s.objects, s.dev.nand, MaySay(ops, oks, s.chunkBytes))
  {
    hide Store.Inv;
    oks := [];
    var i := 0;
    assert ContentsOf(s.objects, s.dev.nand) == map[] == Meaning(ops[..0], oks, s.chunkBytes);
    assert HeadersSay(s.objects, s.dev.nand, MaySay(ops[..0], oks, s.chunkBytes));
    hide ContentsOf; hide After; hide Meaning; hide MaySay; hide SayingsAfter; hide HeadersSay;
    while i < |ops|
      invariant i <= |ops| && |oks| == i && s.Inv()
      invariant ContentsOf(s.objects, s.dev.nand) == Meaning(ops[..i], oks, s.chunkBytes)
      invariant HeadersSay(s.objects, s.dev.nand, MaySay(ops[..i], oks, s.chunkBytes))
    {
      var ok := Step(s, ops[i], MaySay(ops[..i], oks, s.chunkBytes));
      MeaningStep(ops, i, oks, ok, s.chunkBytes);
      oks := oks + [ok];
      i := i + 1;
    }
    assert ops[..i] == ops;
  }
}
