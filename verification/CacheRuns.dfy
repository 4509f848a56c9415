/** Every run of file operations through the cache, with or without space: what is read is what a plain sequence of
    bytes would hold, up to the first write whose refusal throws cached data away.
 */
module CacheRuns {
  import opened CacheView
  import opened ShortOpCache
  import Bits
  import opened Division

  datatype Op =
    | Write(obj: nat, offset: nat, data: Bytes, through: bool)
    | Read(obj: nat, offset: nat, size: nat)
    | Flush(obj: nat)
    | Resize(obj: nat, size: nat)

  /** What an operation makes of the byte at pos, and of the size, of a file. */
  function ByteAfter(op: Op, obj: nat, pos: nat, before: bv8): bv8 {
    match op
    case Write(o, offset, data, _) => if o == obj && offset <= pos < offset + |data| then data[pos - offset] else before
    case Read(_, _, _) => before
    case Flush(_) => before
    case Resize(o, size) => if o == obj && pos >= size then 0 else before
  }

  function SizeAfter(op: Op, obj: nat, before: nat): nat {
    match op
    case Write(o, offset, data, _) => if o == obj && offset + |data| > before then offset + |data| else before
    case Read(_, _, _) => before
    case Flush(_) => before
    case Resize(o, size) => if o == obj then size else before
  }

  /** The byte at pos of a file after some operations on files that began empty. */
  function Meaning(ops: seq<Op>, obj: nat, pos: nat): bv8 {
    if ops == [] then 0 as bv8 else ByteAfter(ops[|ops| - 1], obj, pos, Meaning(ops[..|ops| - 1], obj, pos))
  }

  /** The size of a file after some operations. */
  function SizeOf(ops: seq<Op>, obj: nat): nat {
    if ops == [] then 0 else SizeAfter(ops[|ops| - 1], obj, SizeOf(ops[..|ops| - 1], obj))
  }

  /** The operation stays below the largest address in use. */
  predicate Fits(op: Op, limit: nat) {
    op.obj > 0 &&
    match op
    case Write(_, offset, data, _) => offset + |data| <= limit
    case Read(_, offset, size) => offset + size <= limit
    case Flush(_) => true
    case Resize(_, size) => size <= limit
  }

  /** The part of an operation that was carried out: of a write, the first n bytes. */
  function Carried(op: Op, n: nat): Op {
    if op.Write? && n <= |op.data| then op.(data := op.data[..n]) else op
  }

  /** What holds after every operation. */
  ghost predicate Sound(dev: FileCache, limit: nat)
    reads dev, dev.cache
  {
    && dev.Valid() && dev.Tails() && dev.Counts() && dev.Addressable(limit + dev.bpc)
    && (forall o: nat :: SizeIn(dev.fileSize, o) <= limit)
  }

  /** The cache and the store together hold the meaning of the operations so far. */
  ghost predicate Agrees(dev: FileCache, ops: seq<Op>)
    reads dev, dev.cache
    requires dev.bpc > 0
  {
    && (forall o: nat, pos: nat :: ByteOf(dev.cache[..], dev.store, dev.bpc, o, pos) == Meaning(ops, o, pos))
    && (forall o: nat :: SizeIn(dev.fileSize, o) == SizeOf(ops, o))
  }

  /** One more operation. It is lost only when a write past the cache is refused. */
  method Step(dev: FileCache, ghost ops: seq<Op>, op: Op, ghost limit: nat) returns (n: nat, got: Bytes, ghost lost: bool)
    requires Sound(dev, limit) && Fits(op, limit)
    modifies dev, dev.cache
    ensures Sound(dev, limit) && (op.Write? ==> n <= |op.data|)
    ensures lost ==> op.Write? && n < |op.data| && dev.Bypasses(op.offset + n, |op.data| - n) && !dev.space
    ensures old(Agrees(dev, ops)) && !lost ==> Agrees(dev, ops + [Carried(op, n)])
    ensures dev.space && op.Write? ==> n == |op.data|
    ensures old(Agrees(dev, ops)) && op.Read? ==> |got| == op.size && forall k | 0 <= k < op.size :: got[k] == Meaning(ops, op.obj, op.offset + k)
  {
    hide Agrees; hide Meaning; hide Sound; hide FileCache.Bypasses;
    n, got, lost := 0, [], false;
    match op
    case Write(_, _, _, _) => n, lost := StepWrite(dev, ops, op, limit);
    case Read(_, _, _) => got := StepRead(dev, ops, op, limit);
    case Flush(_) => StepFlush(dev, ops, op, limit);
    case Resize(_, _) => StepResize(dev, ops, op, limit);
  }

  method StepWrite(dev: FileCache, ghost ops: seq<Op>, op: Op, ghost limit: nat) returns (n: nat, ghost lost: bool)
    requires Sound(dev, limit) && Fits(op, limit) && op.Write?
    modifies dev, dev.cache
    ensures Sound(dev, limit) && n <= |op.data| && (dev.space ==> n == |op.data|)
    ensures lost ==> n < |op.data| && dev.Bypasses(op.offset + n, |op.data| - n) && !dev.space
    ensures old(Agrees(dev, ops)) && !lost ==> Agrees(dev, ops + [Carried(op, n)])
  {
    hide FileCache.Bypasses; hide Loses; hide WroteReverted;
    hide ByteOf; hide View; hide Coherent; hide Bits.Pow2; hide AllTails; hide AllCounts; hide Meaning; hide SizeOf; hide FileCache.Addressable;
    AddressBelow(dev, op.offset + |op.data|, limit);
    AddressBelow(dev, op.offset + |op.data| + dev.bpc, limit);
    n, lost := dev.WrFile(op.obj, op.data, op.offset, op.through);
    Extended(ops, Carried(op, n));
  }

  method StepRead(dev: FileCache, ghost ops: seq<Op>, op: Op, ghost limit: nat) returns (got: Bytes)
    requires Sound(dev, limit) && Fits(op, limit) && op.Read?
    modifies dev, dev.cache
    ensures Sound(dev, limit) && (old(Agrees(dev, ops)) ==> Agrees(dev, ops + [op]))
    ensures old(Agrees(dev, ops)) ==> |got| == op.size && forall k | 0 <= k < op.size :: got[k] == Meaning(ops, op.obj, op.offset + k)
  {
    hide StoreFrom;
    hide ByteOf; hide View; hide Coherent; hide Bits.Pow2; hide AllTails; hide AllCounts; hide Meaning; hide SizeOf; hide FileCache.Addressable;
    Extended(ops, op);
    AddressBelow(dev, op.offset + op.size, limit);
    ghost var c, s := dev.cache[..], dev.store;
    got := dev.FileRd(op.obj, op.offset, op.size);
    SameTails(c, s, dev.cache[..], dev.store, dev.bpc, dev.fileSize);
    SameStored(c, s, dev.cache[..], dev.store, dev.bpc, dev.fileSize);
    CountsSame(c, s, dev.cache[..], dev.store, dev.bpc, dev.fileSize, dev.space);
  }

  method StepFlush(dev: FileCache, ghost ops: seq<Op>, op: Op, ghost limit: nat)
    requires Sound(dev, limit) && Fits(op, limit) && op.Flush?
    modifies dev, dev.cache
    ensures Sound(dev, limit) && (old(Agrees(dev, ops)) ==> Agrees(dev, ops + [op]))
  {
    hide StoreFrom;
    hide ByteOf; hide View; hide Coherent; hide Bits.Pow2; hide AllTails; hide AllCounts; hide Meaning; hide SizeOf; hide FileCache.Addressable;
    Extended(ops, op);
    ghost var c, s := dev.cache[..], dev.store;
    dev.FlushFileCache(op.obj);
    SameViewBytes(c, s, dev.cache[..], dev.store, dev.bpc);
    SameTails(c, s, dev.cache[..], dev.store, dev.bpc, dev.fileSize);
    SameStored(c, s, dev.cache[..], dev.store, dev.bpc, dev.fileSize);
    CountsSame(c, s, dev.cache[..], dev.store, dev.bpc, dev.fileSize, dev.space);
  }

  method StepResize(dev: FileCache, ghost ops: seq<Op>, op: Op, ghost limit: nat)
    requires Sound(dev, limit) && Fits(op, limit) && op.Resize?
    modifies dev, dev.cache
    ensures Sound(dev, limit) && (old(Agrees(dev, ops)) ==> Agrees(dev, ops + [op]))
  {
    hide ByteOf; hide View; hide Coherent; hide Bits.Pow2; hide AllTails; hide AllCounts; hide Meaning; hide SizeOf; hide FileCache.Addressable;
    Extended(ops, op);
    AddressBelow(dev, op.size, limit);
    AddressBelow(dev, op.size + dev.bpc, limit);
    AddressBelow(dev, dev.Size(op.obj) + dev.bpc, limit);
    dev.ResizeFile(op.obj, op.size);
  }

  lemma AddressBelow(dev: FileCache, a: nat, limit: nat)
    requires dev.bpc > 0 && a <= limit + dev.bpc && dev.Addressable(limit + dev.bpc)
    ensures dev.Addressable(a)
  {
    dev.AddressBelow(a, limit + dev.bpc);
  }

  lemma Extended(ops: seq<Op>, op: Op)
    ensures forall o: nat, pos: nat :: Meaning(ops + [op], o, pos) == ByteAfter(op, o, pos, Meaning(ops, o, pos))
    ensures forall o: nat :: SizeOf(ops + [op], o) == SizeAfter(op, o, SizeOf(ops, o))
  {
    assert (ops + [op])[..|ops|] == ops;
  }

  /** The operations as far as they were carried out. */
  ghost function AllCarried(ops: seq<Op>, ns: seq<nat>): (done: seq<Op>)
    requires |ns| <= |ops|
    ensures |done| == |ns|
  {
    seq(|ns|, k requires 0 <= k < |ns| => Carried(ops[k], ns[k]))
  }

  lemma CarriedMore(ops: seq<Op>, ns: seq<nat>, n: nat)
    requires |ns| < |ops|
    ensures AllCarried(ops, ns + [n]) == AllCarried(ops, ns) + [Carried(ops[|ns|], n)]
  {
  }

  /** Any run of operations on a fresh device, writes being cut short when space runs out: up to the first loss, every
      read returns the meaning of what was carried out before it. A device with space, or one that writes nothing past the
      cache, never loses anything.
   */
  method Run(dev: FileCache, ops: seq<Op>, ghost limit: nat) returns (ns: seq<nat>, got: seq<Bytes>, ghost first: nat)
    requires Sound(dev, limit) && Agrees(dev, []) && forall k | 0 <= k < |ops| :: Fits(ops[k], limit)
    modifies dev, dev.cache
    ensures Sound(dev, limit) && |ns| == |got| == |ops| && first <= |ops|
    ensures dev.space ==> AllCarried(ops, ns) == ops
    ensures first < |ops| ==> CutShort(ops[first], ns[first]) && dev.bypassAligned && !dev.inbandTags && !dev.space
    ensures first == |ops| ==> Agrees(dev, AllCarried(ops, ns))
    ensures forall k | 0 <= k < first && ops[k].Read? :: ReadIs(ops[k], AllCarried(ops, ns)[..k], got[k])
  {
    assert dev.bpc > 0;
    hide Meaning; hide SizeOf; hide Agrees; hide Sound; hide Carried; hide AllCarried; hide ReadIs; hide Outcome; hide Fits; hide CutShort;
    ns, got, first := [], [], 0;
    NoneCarried(ops);
    ghost var past := dev.bypassAligned && !dev.inbandTags;
    OutcomeNone(ops, dev.space, past);
    while |ns| < |ops|
      invariant dev.bpc > 0 && |ns| == |got| <= |ops| && Sound(dev, limit) && first <= |ns|
      invariant first == |ns| ==> Agrees(dev, AllCarried(ops, ns))
      invariant Outcome(ops, ns, got, first, dev.space, past)
      decreases |ops| - |ns|
    {
      ghost var done := AllCarried(ops, ns);
      var n, data;
      ghost var lost;
      n, data, lost := Turn(dev, done, ops[|ns|], limit);
      CarriedMore(ops, ns, n);
      OutcomeMore(ops, ns, got, first, dev.space, past, n, data, lost);
      if first == |ns| && !lost { first := first + 1; }
      ns := ns + [n];
      got := got + [data];
    }
    OutcomeMeans(ops, ns, got, first, dev.space, past);
  }

  /** One operation, and what its outcome can be. */
  method Turn(dev: FileCache, ghost done: seq<Op>, op: Op, ghost limit: nat) returns (n: nat, got: Bytes, ghost lost: bool)
    requires Sound(dev, limit) && Fits(op, limit)
    modifies dev, dev.cache
    ensures Sound(dev, limit) && Possible(op, n, dev.space, dev.bypassAligned && !dev.inbandTags, lost)
    ensures old(Agrees(dev, done)) && !lost ==> Agrees(dev, done + [Carried(op, n)])
    ensures old(Agrees(dev, done)) && op.Read? ==> ReadIs(op, done, got)
  {
    hide Agrees; hide Meaning; hide Sound; hide Fits;
    n, got, lost := Step(dev, done, op, limit);
  }

  /** Nothing but a write is cut short or lost, and only without space; nothing is lost unless writes go past the cache. */
  ghost predicate Possible(op: Op, n: nat, space: bool, past: bool, lost: bool) {
    && (op.Write? ==> n <= |op.data|) && (op.Write? && space ==> n == |op.data|)
    && (lost ==> CutShort(op, n) && past && !space)
  }

  /** What a run has come to. */
  ghost predicate Outcome(ops: seq<Op>, ns: seq<nat>, got: seq<Bytes>, first: nat, space: bool, past: bool) {
    && first <= |ns| == |got| <= |ops|
    && (space ==> AllCarried(ops, ns) == ops[..|ns|])
    && (first < |ns| ==> CutShort(ops[first], ns[first]) && past && !space)
    && forall k | 0 <= k < first && ops[k].Read? :: ReadIs(ops[k], AllCarried(ops, ns)[..k], got[k])
  }

  lemma OutcomeNone(ops: seq<Op>, space: bool, past: bool)
    ensures Outcome(ops, [], [], 0, space, past)
  {
  }

  lemma OutcomeMeans(ops: seq<Op>, ns: seq<nat>, got: seq<Bytes>, first: nat, space: bool, past: bool)
    requires Outcome(ops, ns, got, first, space, past) && |ns| == |ops|
    ensures space ==> AllCarried(ops, ns) == ops
    ensures first < |ns| ==> CutShort(ops[first], ns[first]) && past && !space
    ensures forall k | 0 <= k < first && ops[k].Read? :: ReadIs(ops[k], AllCarried(ops, ns)[..k], got[k])
  {
    hide AllCarried; hide ReadIs;
    assert ops[..|ns|] == ops;
  }

  lemma {:induction false} OutcomeMore(ops: seq<Op>, ns: seq<nat>, got: seq<Bytes>, first: nat, space: bool, past: bool, n: nat, data: Bytes, lost: bool)
    requires Outcome(ops, ns, got, first, space, past) && |ns| < |ops| && Possible(ops[|ns|], n, space, past, lost)
    requires first == |ns| && ops[|ns|].Read? ==> ReadIs(ops[|ns|], AllCarried(ops, ns), data)
    ensures Outcome(ops, ns + [n], got + [data], if first == |ns| && !lost then first + 1 else first, space, past)
  {
    hide ReadIs; hide AllCarried; hide Carried;
    var ns', got', m := ns + [n], got + [data], |ns|;
    var done, done' := AllCarried(ops, ns), AllCarried(ops, ns');
    CarriedMore(ops, ns, n);
    CarriedWhole(ops[m], n);
    if space { assert ops[..m + 1] == ops[..m] + [ops[m]]; }
    assert done'[..m] == done;
    forall k | 0 <= k < first && ops[k].Read? ensures ReadIs(ops[k], done'[..k], got'[k]) {
      assert done'[..k] == done[..k];
    }
  }

  /** A write that was not carried out to its end. */
  predicate CutShort(op: Op, n: nat) {
    op.Write? && n < |op.data|
  }

  lemma NoneCarried(ops: seq<Op>)
    ensures AllCarried(ops, []) == [] == ops[..0]
  {
  }

  lemma CarriedWhole(op: Op, n: nat)
    requires op.Write? ==> n <= |op.data|
    ensures !op.Write? || n == |op.data| ==> Carried(op, n) == op
  {
    if op.Write? && n == |op.data| { assert op.data[..n] == op.data; }
  }

  /** What an operation read is what the operations before it mean. */
  ghost predicate ReadIs(op: Op, done: seq<Op>, got: Bytes)
    requires op.Read?
  {
    |got| == op.size && forall j | 0 <= j < |got| :: got[j] == Meaning(done, op.obj, op.offset + j)
  }

  /** A new device agrees with no operations at all. */
  method NewDevice(shift: nat, div: nat, nCaches: nat, bypassAligned: bool, inbandTags: bool, space: bool, ghost limit: nat) returns (dev: FileCache)
    requires 0 < div <= LIMIT_32
    requires var bpc := div * Bits.Pow2(shift);
      bpc > 0 && (limit + bpc) / Bits.Pow2(shift) < ShiftedLimit(div) && (limit + bpc) / bpc < MAX_CHUNK_ID
    ensures fresh(dev) && fresh(dev.cache) && Sound(dev, limit) && Agrees(dev, [])
  {
    dev := new FileCache(shift, div, nCaches, bypassAligned, inbandTags, space);
  }
}
