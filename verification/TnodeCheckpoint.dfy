/** A file's tnode tree written to the checkpoint leaf by leaf and read back by inserting the leaves. */
module TnodeCheckpoint {
  import opened Options
  import opened TnodeTree
  import opened Division

  const END_MARKER := 0xffff_ffff

  /** A leaf in the checkpoint: the first chunk id of its group and its chunk numbers. */
  datatype Record = Record(base: nat, slots: seq<nat>)

  // ----- the records of a tree

  ghost function Records(t: Tree, level: nat, offset: nat): seq<Record>
    decreases level, 9
  {
    match t
    case Null => []
    case Leaf(slots) => [Record(offset * 16, slots)]
    case Node(kids) => if level > 0 && |kids| == 8 then KidRecords(kids, 8, level, offset) else []
  }

  ghost function KidRecords(kids: seq<Tree>, n: nat, level: nat, offset: nat): seq<Record>
    requires level > 0 && n <= |kids| == 8
    decreases level, n
  {
    if n == 0 then [] else KidRecords(kids, n - 1, level, offset) + Records(kids[n - 1], level - 1, offset * 8 + (n - 1))
  }

  /** What a list of records says about a chunk id, the last word counting. */
  ghost function Says(recs: seq<Record>, id: nat, otherwise: nat): nat {
    if recs == [] then otherwise
    else
      var r := recs[|recs| - 1];
      if r.base / 16 == id / 16 && |r.slots| == 16 then r.slots[id % 16] else Says(recs[..|recs| - 1], id, otherwise)
  }

  lemma {:induction false} SaysAppend(a: seq<Record>, b: seq<Record>, id: nat, otherwise: nat)
    ensures Says(a + b, id, otherwise) == Says(b, id, Says(a, id, otherwise))
    decreases |b|
  {
    if b == [] {
      assert a + b == a;
    } else {
      var n := |b| - 1;
      assert (a + b)[..|a + b| - 1] == a + b[..n];
      SaysAppend(a, b[..n], id, otherwise);
    }
  }

  /** Every record lies in the part of the file its tnode is for. */
  ghost predicate Within(recs: seq<Record>, level: nat, offset: nat) {
    forall k | 0 <= k < |recs| :: InSpan(recs[k], level, offset)
  }

  ghost predicate InSpan(r: Record, level: nat, offset: nat) {
    r.base / Span(level) == offset && |r.slots| == 16
  }

  lemma {:induction false} RecordsWithin(t: Tree, level: nat, offset: nat)
    requires Shaped(t, level)
    ensures Within(Records(t, level, offset), level, offset)
    decreases level, 9
  {
    if t.Leaf? {
      assert offset * 16 / 16 == offset;
    } else if t.Node? {
      KidRecordsWithin(t.kids, 8, level, offset);
    }
  }

  lemma {:induction false} KidRecordsWithin(kids: seq<Tree>, n: nat, level: nat, offset: nat)
    requires level > 0 && n <= |kids| == 8 && forall i | 0 <= i < 8 :: Shaped(kids[i], level - 1)
    ensures Within(KidRecords(kids, n, level, offset), level, offset)
    decreases level, n
  {
    if n > 0 {
      KidRecordsWithin(kids, n - 1, level, offset);
      RecordsWithin(kids[n - 1], level - 1, offset * 8 + (n - 1));
      var recs := Records(kids[n - 1], level - 1, offset * 8 + (n - 1));
      forall k | 0 <= k < |recs| ensures InSpan(recs[k], level, offset) {
        assert InSpan(recs[k], level - 1, offset * 8 + (n - 1));
        UpOneLevel(recs[k].base, level, offset, n - 1);
      }
    }
  }

  lemma UpOneLevel(base: nat, level: nat, offset: nat, i: nat)
    requires level > 0 && i < 8 && base / Span(level - 1) == offset * 8 + i
    ensures base / Span(level) == offset
  {
    var n := Span(level - 1);
    DivDiv(base, n, 8, 8 * n);
  }

  /** Records of another part of the file say nothing about id. */
  lemma {:induction false} SaysNothing(recs: seq<Record>, level: nat, offset: nat, id: nat, otherwise: nat)
    requires Within(recs, level, offset) && id / Span(level) != offset
    ensures Says(recs, id, otherwise) == otherwise
  {
    if recs != [] {
      var n := |recs| - 1;
      assert InSpan(recs[n], level, offset);
      GroupQuotient(recs[n].base, id, level);
      forall k | 0 <= k < n ensures InSpan(recs[..n][k], level, offset) { assert InSpan(recs[k], level, offset); }
      SaysNothing(recs[..n], level, offset, id, otherwise);
    }
  }

  /** The records of a tree say what the tree says. */
  lemma {:induction false} RecordsSay(t: Tree, level: nat, offset: nat, id: nat)
    requires Shaped(t, level) && id / Span(level) == offset
    ensures Says(Records(t, level, offset), id, 0) == Lookup(t, level, id)
    decreases level, 9
  {
    if t.Leaf? {
      assert offset * 16 / 16 == offset;
    } else if t.Node? {
      KidRecordsSay(t.kids, 8, level, offset, id);
    }
  }

  lemma {:induction false} KidRecordsSay(kids: seq<Tree>, n: nat, level: nat, offset: nat, id: nat)
    requires level > 0 && n <= |kids| == 8 && forall i | 0 <= i < 8 :: Shaped(kids[i], level - 1)
    requires id / Span(level) == offset
    ensures Says(KidRecords(kids, n, level, offset), id, 0)
         == if Branch(id, level) < n then Lookup(kids[Branch(id, level)], level - 1, id) else 0
    decreases level, n
  {
    hide Branch; hide Lookup; hide Span; hide Says;
    SaysNone(id);
    if n > 0 {
      KidRecordsSay(kids, n - 1, level, offset, id);
      SpanQuotient(id, level);
      var i := n - 1;
      var recs := Records(kids[i], level - 1, offset * 8 + i);
      SaysAppend(KidRecords(kids, i, level, offset), recs, id, 0);
      if Branch(id, level) == i {
        RecordsSay(kids[i], level - 1, offset * 8 + i, id);
      } else {
        RecordsWithin(kids[i], level - 1, offset * 8 + i);
        SaysNothing(recs, level - 1, offset * 8 + i, id, Says(KidRecords(kids, i, level, offset), id, 0));
      }
    }
  }

  lemma SaysNone(id: nat)
    ensures Says([], id, 0) == 0
  {
  }

  // ----- the stream

  ghost function Encode(recs: seq<Record>): seq<nat> {
    if recs == [] then [] else Encode(recs[..|recs| - 1]) + [recs[|recs| - 1].base] + recs[|recs| - 1].slots
  }

  lemma {:induction false} EncodeAppend(a: seq<Record>, b: seq<Record>)
    ensures Encode(a + b) == Encode(a) + Encode(b)
    decreases |b|
  {
    if b == [] {
      assert a + b == a;
    } else {
      var n := |b| - 1;
      assert (a + b)[..|a + b| - 1] == a + b[..n];
      EncodeAppend(a, b[..n]);
    }
  }

  /** yaffs2_checkpt_tnode_worker. */
  method TnodeWorker(t: Tree, level: nat, offset: nat, stream: seq<nat>) returns (out: seq<nat>)
    requires Shaped(t, level)
    ensures out == stream + Encode(Records(t, level, offset))
    decreases level
  {
    hide Encode; hide Says;
    out := stream;
    EncodeNone();
    if t == Null {
      return;
    }
    if level > 0 {
      hide Records;
      var i := 0;
      NoKids(t.kids, level, offset);
      while i < 8
        invariant 0 <= i <= 8 && out == stream + Encode(KidRecords(t.kids, i, level, offset))
      {
        NextKid(t.kids, i, level, offset);
        if t.kids[i] != Null {
          out := TnodeWorker(t.kids[i], level - 1, offset * 8 + i, out);
        }
        i := i + 1;
      }
      AllKids(t, level, offset);
      return;
    }
    var base := offset * 16;
    EncodeOne(Record(base, t.slots));
    out := out + [base] + t.slots;
  }

  lemma EncodeNone()
    ensures Encode([]) == []
  {
  }

  lemma EncodeOne(r: Record)
    ensures Encode([r]) == [r.base] + r.slots
  {
    assert [r][..0] == [];
  }

  lemma NoKids(kids: seq<Tree>, level: nat, offset: nat)
    requires level > 0 && |kids| == 8
    ensures Encode(KidRecords(kids, 0, level, offset)) == []
  {
  }

  lemma {:induction false} NextKid(kids: seq<Tree>, i: nat, level: nat, offset: nat)
    requires level > 0 && i < |kids| == 8
    ensures Encode(KidRecords(kids, i + 1, level, offset))
         == Encode(KidRecords(kids, i, level, offset)) + Encode(Records(kids[i], level - 1, offset * 8 + i))
    ensures kids[i] == Null ==> Encode(Records(kids[i], level - 1, offset * 8 + i)) == []
  {
    EncodeAppend(KidRecords(kids, i, level, offset), Records(kids[i], level - 1, offset * 8 + i));
  }

  lemma AllKids(t: Tree, level: nat, offset: nat)
    requires t.Node? && level > 0 && |t.kids| == 8
    ensures Records(t, level, offset) == KidRecords(t.kids, 8, level, offset)
  {
  }

  /** yaffs2_wr_checkpt_tnodes. */
  method WrCheckptTnodes(file: FileVar) returns (out: seq<nat>)
    requires file.Valid()
    ensures out == Encode(Records(file.top, file.topLevel, 0)) + [END_MARKER]
  {
    out := TnodeWorker(file.top, file.topLevel, 0, []);
    out := out + [END_MARKER];
  }

  /** A stream that begins with records and an end marker. */
  ghost function Parse(stream: seq<nat>): Option<(seq<Record>, seq<nat>)> {
    if stream == [] then None
    else if stream[0] == END_MARKER then Some(([], stream[1..]))
    else if stream[0] > MAX_CHUNK_ID || |stream| < 17 then None
    else
      match Parse(stream[17..])
      case None => None
      case Some((recs, rest)) => Some(([Record(stream[0], stream[1..17])] + recs, rest))
  }

  ghost predicate Writable(recs: seq<Record>) {
    forall k | 0 <= k < |recs| :: recs[k].base <= MAX_CHUNK_ID && |recs[k].slots| == 16
  }

  lemma {:induction false} ParseEncode(recs: seq<Record>, rest: seq<nat>)
    requires Writable(recs)
    ensures Parse(Encode(recs) + [END_MARKER] + rest) == Some((recs, rest))
  {
    var s := Encode(recs) + [END_MARKER] + rest;
    if recs == [] {
      assert s[1..] == rest;
    } else {
      var r := recs[0];
      assert recs == [r] + recs[1..];
      assert [r][..0] == [];
      assert Encode([r]) == [r.base] + r.slots;
      EncodeAppend([r], recs[1..]);
      ParseEncode(recs[1..], rest);
      var t := Encode(recs[1..]) + [END_MARKER] + rest;
      assert s == [r.base] + r.slots + t;
      assert s[0] == r.base && s[1..17] == r.slots && s[17..] == t;
    }
  }

  /** Nothing else is parsed: a stream that is cut short, or has a record past the largest chunk id, is refused. */
  lemma {:induction false} ParseSound(stream: seq<nat>)
    ensures Parse(stream).Some? ==> var (recs, rest) := Parse(stream).value; Writable(recs) && stream == Encode(recs) + [END_MARKER] + rest
    decreases |stream|
  {
    if Parse(stream).None? {
    } else if stream[0] == END_MARKER {
      EncodeNone();
      assert stream == [] + [END_MARKER] + stream[1..];
    } else {
      var (recs, rest) := Parse(stream[17..]).value;
      var r := Record(stream[0], stream[1..17]);
      ParseSound(stream[17..]);
      EncodeOne(r);
      EncodeAppend([r], recs);
      assert stream == [r.base] + r.slots + stream[17..];
      assert Encode([r] + recs) + [END_MARKER] + rest == [r.base] + r.slots + (Encode(recs) + [END_MARKER] + rest);
    }
  }

  /** A stream is read if and only if it begins with whole records and the end marker, all bits set. */
  lemma {:induction false} ParseIff(stream: seq<nat>)
    ensures Parse(stream).Some? <==>
            exists recs: seq<Record>, rest: seq<nat> :: Writable(recs) && stream == Encode(recs) + [0xffff_ffff] + rest
  {
    hide Encode; hide Parse; hide Writable;
    ParseSound(stream);
    if Parse(stream).Some? {
      var (recs, rest) := Parse(stream).value;
      assert Writable(recs) && stream == Encode(recs) + [0xffff_ffff] + rest;
    }
    forall recs: seq<Record>, rest: seq<nat> | Writable(recs) && stream == Encode(recs) + [0xffff_ffff] + rest ensures Parse(stream).Some? {
      ParseEncode(recs, rest);
    }
  }

  /** yaffs2_rd_checkpt_tnodes: the leaves of the stream are inserted one after the other. */
  method RdCheckptTnodes(file: FileVar, stream: seq<nat>) returns (ok: bool, rest: seq<nat>)
    requires file.Valid()
    modifies file
    ensures file.Valid() && (ok <==> Parse(stream).Some?)
    ensures ok ==> rest == Parse(stream).value.1
                   && forall id: nat :: file.At(id) == Says(Parse(stream).value.0, id, old(file.At(id)))
  {
    hide Lookup; hide Shaped; hide Spine; hide Says; hide Span;
    rest := stream;
    ok := false;
    ghost var done: seq<Record> := [];
    SaysAll();
    forall recs: seq<Record> ensures done + recs == recs {
    }
    while true
      invariant file.Valid() && !ok
      invariant Parse(stream) == match Parse(rest) case None => None case Some((recs, r)) => Some((done + recs, r))
      invariant forall id: nat :: file.At(id) == Says(done, id, old(file.At(id)))
      decreases |rest|
    {
      if rest == [] {
        return;
      }
      var base := rest[0];
      if base == END_MARKER {
        assert done + [] == done;
        rest := rest[1..];
        ok := true;
        return;
      }
      if |rest| < 17 {
        return;
      }
      var slots := rest[1..17];
      var added := file.AddFind(base, Some(slots));
      if !added {
        return;
      }
      ghost var r := Record(base, slots);
      forall recs: seq<Record> ensures done + ([r] + recs) == (done + [r]) + recs {
      }
      SaysOneMore(done, r);
      done := done + [r];
      rest := rest[17..];
    }
  }

  lemma SaysAll()
    ensures forall id: nat, d: nat :: Says([], id, d) == d
  {
  }

  lemma SaysOneMore(done: seq<Record>, r: Record)
    requires |r.slots| == 16
    ensures forall id: nat, d: nat :: Says(done + [r], id, d) == if id / 16 == r.base / 16 then r.slots[id % 16] else Says(done, id, d)
  {
    assert (done + [r])[..|done|] == done;
  }

  lemma {:induction false} TreeRecordsWritable(t: Tree, level: nat)
    requires Shaped(t, level) && level <= MAX_LEVEL
    ensures Writable(Records(t, level, 0))
  {
    RecordsWithin(t, level, 0);
    SpanMonotone(level, MAX_LEVEL);
    MaxSpan();
    var recs := Records(t, level, 0);
    forall k | 0 <= k < |recs| ensures recs[k].base <= MAX_CHUNK_ID && |recs[k].slots| == 16 {
      assert InSpan(recs[k], level, 0);
      ZeroQuotient(recs[k].base, Span(level));
    }
  }

  /** Saving and restoring gives a file with the same chunk for every chunk id, at whatever height. */
  method SaveAndRestore(file: FileVar, more: seq<nat>) returns (ok: bool, copy: FileVar, rest: seq<nat>)
    requires file.Valid()
    ensures ok && copy.Valid() && rest == more
    ensures forall id: nat :: copy.At(id) == file.At(id)
  {
    hide Lookup; hide Shaped; hide Spine; hide Says; hide Span; hide Parse; hide Encode;
    ghost var recs := Records(file.top, file.topLevel, 0);
    var stream := WrCheckptTnodes(file);
    TreeRecordsWritable(file.top, file.topLevel);
    ParseEncode(recs, more);
    copy := new FileVar();
    ok, rest := RdCheckptTnodes(copy, stream + more);
    forall id: nat ensures Says(recs, id, 0) == file.At(id) {
      if id < Span(file.topLevel) {
        SmallQuotient(id, Span(file.topLevel));
        RecordsSay(file.top, file.topLevel, 0, id);
      } else {
        ZeroQuotient(id, Span(file.topLevel));
        RecordsWithin(file.top, file.topLevel, 0);
        SaysNothing(recs, file.topLevel, 0, id, 0);
      }
    }
  }
}
