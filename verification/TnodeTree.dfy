/** The tnode tree: a radix tree from chunk id to NAND chunk, sixteen ways at the leaves and eight above,
    that grows at the root, is pruned, and always keeps its leftmost path.
 */
module TnodeTree {
  import opened Options
  import Bits
  import opened Division

  const MAX_LEVEL := 8
  const MAX_CHUNK_ID := 0x0fff_ffff

  /** struct yaffs_tnode: a null pointer, sixteen chunk numbers, or eight pointers. */
  datatype Tree = Null | Leaf(slots: seq<nat>) | Node(kids: seq<Tree>)

  /** The chunk ids under a tnode of a level. */
  function Span(level: nat): (n: nat)
    ensures n >= 16
  {
    if level == 0 then 16 else 8 * Span(level - 1)
  }

  ghost predicate Shaped(t: Tree, level: nat)
    decreases level
  {
    match t
    case Null => true
    case Leaf(slots) => level == 0 && |slots| == 16
    case Node(kids) => level > 0 && |kids| == 8 && forall i | 0 <= i < 8 :: Shaped(kids[i], level - 1)
  }

  /** The branch of chunk id at a level above the leaves. */
  function Branch(id: nat, level: nat): (x: nat)
    requires level > 0
    ensures x < 8
  {
    (id / Span(level - 1)) % 8
  }

  function Lookup(t: Tree, level: nat, id: nat): nat
    decreases level
  {
    match t
    case Null => 0
    case Leaf(slots) => if |slots| == 16 then slots[id % 16] else 0
    case Node(kids) => if level > 0 && |kids| == 8 then Lookup(kids[Branch(id, level)], level - 1, id) else 0
  }

  /** The whole leftmost path exists. */
  ghost predicate Spine(t: Tree, level: nat)
    decreases level
  {
    match t
    case Null => false
    case Leaf(_) => level == 0
    case Node(kids) => level > 0 && |kids| == 8 && Spine(kids[0], level - 1)
  }

  function NewTnode(level: nat): (t: Tree)
    ensures Shaped(t, level) && t != Null
  {
    if level == 0 then Leaf(seq(16, _ => 0)) else Node(seq(8, _ => Null))
  }

  // ----- depth

  /** The loop that computes the depth a chunk id needs. */
  method RequiredDepth(id: nat) returns (depth: nat)
    ensures forall level: nat :: depth <= level <==> id < Span(level)
  {
    var i := id / 16;
    depth := 0;
    var p := 1;
    while i > 0
      invariant p >= 1 && i == id / 16 / p && 16 * p == Span(depth) && (depth > 0 ==> id >= Span(depth - 1))
      decreases i
    {
      DivDiv(id / 16, p, 8, 8 * p);
      BeyondSpan(id, p);
      i := i / 8;
      depth := depth + 1;
      p := 8 * p;
    }
    BeyondSpan(id, p);
    forall level: nat ensures depth <= level <==> id < Span(level) {
      if depth <= level { SpanMonotone(depth, level); } else { SpanMonotone(level, depth - 1); }
    }
  }

  lemma BeyondSpan(id: nat, p: nat)
    requires p > 0
    ensures id / 16 / p > 0 <==> id >= 16 * p
  {
    var a := id / 16;
    assert a >= p <==> id >= 16 * p;
    assert a == (a / p) * p + a % p;
    if a / p > 0 { assert (a / p) * p >= p; }
  }

  lemma {:induction false} SpanMonotone(a: nat, b: nat)
    requires a <= b
    ensures Span(a) <= Span(b)
    decreases b
  {
    if a < b { SpanMonotone(a, b - 1); }
  }

  // ----- paths

  /** Two chunk ids take the same branches from a level down. */
  ghost predicate SamePath(a: nat, b: nat, level: nat) {
    level > 0 ==> Branch(a, level) == Branch(b, level) && SamePath(a, b, level - 1)
  }

  lemma {:induction false} SpanQuotient(id: nat, level: nat)
    requires level > 0
    ensures id / Span(level - 1) == 8 * (id / Span(level)) + Branch(id, level)
  {
    var n := Span(level - 1);
    hide Span;
    SpanUp(level);
    DivDiv(id, n, 8, 8 * n);
  }

  lemma SpanUp(level: nat)
    requires level > 0
    ensures Span(level) == 8 * Span(level - 1)
  {
  }

  /** Within one tree, the same branches lead to the same group of sixteen. */
  lemma {:induction false} PathIsGroup(a: nat, b: nat, level: nat)
    requires a / Span(level) == b / Span(level)
    ensures SamePath(a, b, level) <==> a / 16 == b / 16
  {
    if level > 0 {
      SpanQuotient(a, level); SpanQuotient(b, level);
      if Branch(a, level) == Branch(b, level) {
        PathIsGroup(a, b, level - 1);
      } else {
        GroupQuotient(a, b, level - 1);
      }
    }
  }

  lemma {:induction false} GroupQuotient(a: nat, b: nat, level: nat)
    ensures a / 16 == b / 16 ==> a / Span(level) == b / Span(level)
  {
    if level > 0 && a / 16 == b / 16 {
      GroupQuotient(a, b, level - 1);
      var n := Span(level - 1);
      DivDiv(a, n, 8, 8 * n); DivDiv(b, n, 8, 8 * n);
    }
  }

  lemma SmallQuotient(a: nat, n: nat)
    requires a < n
    ensures a / n == 0
  {
  }

  // ----- replacing a leaf

  function Kids(t: Tree): (k: seq<Tree>)
    ensures |k| == 8
  {
    if t.Node? && |t.kids| == 8 then t.kids else seq(8, _ => Null)
  }

  /** The tree with the group of id replaced, and with the tnodes on the way to it. */
  function WithLeaf(t: Tree, level: nat, id: nat, slots: seq<nat>): (r: Tree)
    decreases level
  {
    if level == 0 then Leaf(slots)
    else
      var x := Branch(id, level);
      Node(Kids(t)[x := WithLeaf(Kids(t)[x], level - 1, id, slots)])
  }

  lemma {:induction false} WithLeafShaped(t: Tree, level: nat, id: nat, slots: seq<nat>)
    requires Shaped(t, level) && |slots| == 16
    ensures Shaped(WithLeaf(t, level, id, slots), level)
    ensures Spine(t, level) ==> Spine(WithLeaf(t, level, id, slots), level)
    decreases level
  {
    hide Branch;
    if level > 0 {
      WithLeafShaped(Kids(t)[Branch(id, level)], level - 1, id, slots);
    }
  }

  lemma {:induction false} WithLeafLookup(t: Tree, level: nat, id: nat, slots: seq<nat>, j: nat)
    requires Shaped(t, level) && |slots| == 16
    ensures Lookup(WithLeaf(t, level, id, slots), level, j) == if SamePath(id, j, level) then slots[j % 16] else Lookup(t, level, j)
    decreases level
  {
    hide Branch;
    if level > 0 && Branch(id, level) == Branch(j, level) {
      WithLeafLookup(Kids(t)[Branch(id, level)], level - 1, id, slots, j);
    }
  }

  /** The sixteen chunk numbers of id's group. */
  function LeafAt(t: Tree, level: nat, id: nat): (s: seq<nat>)
    ensures |s| == 16
    decreases level
  {
    match t
    case Null => seq(16, _ => 0)
    case Leaf(slots) => if |slots| == 16 then slots else seq(16, _ => 0)
    case Node(kids) => if level > 0 && |kids| == 8 then LeafAt(kids[Branch(id, level)], level - 1, id) else seq(16, _ => 0)
  }

  lemma {:induction false} LeafAtLookup(t: Tree, level: nat, id: nat, j: nat)
    requires Shaped(t, level) && SamePath(id, j, level)
    ensures LeafAt(t, level, id)[j % 16] == Lookup(t, level, j)
    decreases level
  {
    hide Branch;
    if level > 0 && t.Node? {
      LeafAtLookup(t.kids[Branch(id, level)], level - 1, id, j);
    }
  }

  // ----- growing at the root

  lemma {:induction false} GrowLookup(t: Tree, level: nat, j: nat)
    requires Shaped(t, level) && j < Span(level + 1)
    ensures var g := Node([t, Null, Null, Null, Null, Null, Null, Null]);
      && Shaped(g, level + 1) && (Spine(t, level) ==> Spine(g, level + 1))
      && Lookup(g, level + 1, j) == if j < Span(level) then Lookup(t, level, j) else 0
  {
    var n := Span(level);
    var kids := [t, Null, Null, Null, Null, Null, Null, Null];
    assert kids[0] == t && forall i | 1 <= i < 8 :: kids[i] == Null;
    var x := Branch(j, level + 1);
    assert x == (j / n) % 8;
    QuotientBelow(j, n);
    assert Lookup(Node(kids), level + 1, j) == Lookup(kids[x], level, j);
  }

  lemma QuotientBelow(j: nat, n: nat)
    requires n > 0 && j < 8 * n
    ensures (j / n) % 8 == 0 <==> j < n
  {
    Remainder(j, n);
    var q := j / n;
    Bits.MulMonotone(8, q, n); Bits.MulMonotone(1, q, n);
    assert q < 8;
  }

  // ----- pruning

  ghost predicate HasData(t: Tree)
  {
    match t
    case Null => false
    case Leaf(slots) => exists i :: 0 <= i < |slots| && slots[i] != 0
    case Node(kids) => exists i :: 0 <= i < |kids| && kids[i] != Null
  }

  /** yaffs_prune_worker: tnodes without data go, except along the leftmost path when del0 is false. */
  ghost function PruneWorker(t: Tree, level: nat, del0: bool): Tree
    decreases level
  {
    match t
    case Null => Null
    case Leaf(_) => if !HasData(t) && del0 then Null else t
    case Node(kids) =>
      if level == 0 || |kids| != 8 then t
      else
        var n := Node(seq(8, i requires 0 <= i < 8 => PruneWorker(kids[i], level - 1, if i == 0 then del0 else true)));
        if !HasData(n) && del0 then Null else n
  }

  ghost predicate SameLookups(r: Tree, t: Tree, level: nat) {
    forall id: nat :: Lookup(r, level, id) == Lookup(t, level, id)
  }

  /** Pruning changes no lookup, and keeps the leftmost path when told to. */
  lemma {:induction false} PruneKeeps(t: Tree, level: nat, del0: bool)
    requires Shaped(t, level)
    ensures var r := PruneWorker(t, level, del0);
      Shaped(r, level) && (!del0 && Spine(t, level) ==> Spine(r, level)) && SameLookups(r, t, level)
    decreases level
  {
    if level > 0 && t.Node? {
      forall i | 0 <= i < 8 ensures PruneKeptKid(t, level, del0, i) {
        PruneKeeps(t.kids[i], level - 1, if i == 0 then del0 else true);
      }
      PruneNodeShape(t, level, del0);
      PruneNodeLookups(t, level, del0);
    }
  }

  lemma {:induction false} PruneNodeShape(t: Tree, level: nat, del0: bool)
    requires t.Node? && level > 0 && |t.kids| == 8 && forall i | 0 <= i < 8 :: PruneKeptKid(t, level, del0, i)
    ensures var r := PruneWorker(t, level, del0); Shaped(r, level) && (!del0 && Spine(t, level) ==> Spine(r, level))
  {
    hide SameLookups;
    var r := PruneWorker(t, level, del0);
    assert PruneKeptKid(t, level, del0, 0);
    forall i | 0 <= i < 8 && r.Node? ensures Shaped(r.kids[i], level - 1) { assert PruneKeptKid(t, level, del0, i); }
  }

  lemma {:induction false} PruneNodeLookups(t: Tree, level: nat, del0: bool)
    requires t.Node? && level > 0 && |t.kids| == 8 && forall i | 0 <= i < 8 :: PruneKeptKid(t, level, del0, i)
    ensures SameLookups(PruneWorker(t, level, del0), t, level)
  {
    hide Branch; hide Shaped; hide Spine;
    var r := PruneWorker(t, level, del0);
    var n := Node(seq(8, i requires 0 <= i < 8 => PruneWorker(t.kids[i], level - 1, if i == 0 then del0 else true)));
    assert r == if !HasData(n) && del0 then Null else n;
    forall id: nat ensures Lookup(r, level, id) == Lookup(t, level, id) {
      var x := Branch(id, level);
      assert n.kids[x] == PruneWorker(t.kids[x], level - 1, if x == 0 then del0 else true);
      assert r == Null ==> n.kids[x] == Null;
      assert PruneKeptKid(t, level, del0, x);
      KidLookup(t.kids[x], level, if x == 0 then del0 else true, id);
    }
  }

  lemma KidLookup(kid: Tree, level: nat, del0: bool, id: nat)
    requires level > 0 && SameLookups(PruneWorker(kid, level - 1, del0), kid, level - 1)
    ensures Lookup(PruneWorker(kid, level - 1, del0), level - 1, id) == Lookup(kid, level - 1, id)
  {
  }

  ghost predicate PruneKeptKid(t: Tree, level: nat, del0: bool, i: nat)
    requires t.Node? && level > 0 && i < 8 && |t.kids| == 8
  {
    var r := PruneWorker(t.kids[i], level - 1, if i == 0 then del0 else true);
    && Shaped(r, level - 1) && SameLookups(r, t.kids[i], level - 1)
    && (i == 0 && !del0 && Spine(t.kids[0], level - 1) ==> Spine(r, level - 1))
  }

  /** No tnode is there for nothing: off the leftmost path every tnode has data. */
  ghost predicate Tidy(t: Tree, level: nat, del0: bool)
    decreases level
  {
    match t
    case Null => true
    case Leaf(_) => del0 ==> HasData(t)
    case Node(kids) =>
      && (del0 ==> HasData(t))
      && (level > 0 && |kids| == 8 ==> forall i | 0 <= i < 8 :: Tidy(kids[i], level - 1, if i == 0 then del0 else true))
  }

  /** Pruning leaves nothing to prune. */
  lemma {:induction false} PruneTidy(t: Tree, level: nat, del0: bool)
    requires Shaped(t, level)
    ensures Tidy(PruneWorker(t, level, del0), level, del0)
    decreases level
  {
    if level > 0 && t.Node? {
      forall i | 0 <= i < 8 ensures Tidy(PruneWorker(t.kids[i], level - 1, if i == 0 then del0 else true), level - 1, if i == 0 then del0 else true) {
        PruneTidy(t.kids[i], level - 1, if i == 0 then del0 else true);
      }
    }
  }

  // ----- the tree of a file

  /** struct yaffs_file_var's index. */
  class FileVar {
    var top: Tree
    var topLevel: nat

    ghost predicate Valid()
      reads this
    {
      topLevel <= MAX_LEVEL && Shaped(top, topLevel) && Spine(top, topLevel)
    }

    /** The map the tree stands for; 0 is no chunk. */
    ghost function At(id: nat): nat
      reads this
    {
      if id < Span(topLevel) then Lookup(top, topLevel, id) else 0
    }

    constructor ()
      ensures Valid() && topLevel == 0 && forall id: nat :: At(id) == 0
    {
      top, topLevel := NewTnode(0), 0;
      new;
    }

    /** yaffs_find_tnode_0 and yaffs_get_group_base. */
    method Find(id: nat) returns (c: nat)
      requires Valid()
      ensures c == if id <= MAX_CHUNK_ID then At(id) else 0
    {
      hide Branch;
      if id > MAX_CHUNK_ID {
        return 0;
      }
      var depth := RequiredDepth(id);
      if depth > topLevel {
        return 0;
      }
      var tn, level := top, topLevel;
      while level > 0 && tn != Null
        invariant Shaped(tn, level) && Lookup(tn, level, id) == Lookup(top, topLevel, id)
      {
        tn := tn.kids[Branch(id, level)];
        level := level - 1;
      }
      c := if tn == Null then 0 else tn.slots[id % 16];
    }

    /** The growing part of yaffs_add_find_tnode_0. */
    method Grow(depth: nat)
      requires Valid() && depth <= MAX_LEVEL
      modifies this
      ensures Valid() && topLevel == (if depth > old(topLevel) then depth else old(topLevel))
      ensures forall id: nat :: At(id) == old(At(id))
    {
      hide Branch; hide Lookup; hide Span; hide Shaped; hide Spine;
      while topLevel < depth
        invariant Valid() && old(topLevel) <= topLevel && (topLevel <= depth || topLevel == old(topLevel))
        invariant forall id: nat :: At(id) == old(At(id))
      {
        ghost var t, l := top, topLevel;
        top := Node([top, Null, Null, Null, Null, Null, Null, Null]);
        topLevel := topLevel + 1;
        SpanMonotone(l, topLevel);
        GrowShaped(t, l);
        forall id: nat ensures At(id) == if id < Span(l) then Lookup(t, l, id) else 0 {
          if id < Span(topLevel) { GrowLookup(t, l, id); }
        }
      }
    }

    /** yaffs_add_find_tnode_0: the way to id's leaf exists, and a leaf passed in replaces it. */
    method AddFind(id: nat, passed: Option<seq<nat>>) returns (ok: bool)
      requires Valid() && (passed.Some? ==> |passed.value| == 16)
      modifies this
      ensures Valid() && (ok <==> id <= MAX_CHUNK_ID)
      ensures !ok ==> forall j: nat :: At(j) == old(At(j))
      ensures ok ==> id < Span(topLevel)
      ensures ok ==> forall j: nat :: At(j) == if passed.Some? && j / 16 == id / 16 then passed.value[j % 16] else old(At(j))
    {
      hide Branch; hide Lookup; hide Span; hide Shaped; hide Spine;
      if id > MAX_CHUNK_ID {
        return false;
      }
      var depth := RequiredDepth(id);
      MaxSpan();
      Grow(depth);
      PutLeaf(id, if passed.Some? then passed.value else LeafAt(top, topLevel, id));
      ok := true;
    }

    /** Replaces the leaf of id. */
    method PutLeaf(id: nat, slots: seq<nat>)
      requires Valid() && id < Span(topLevel) && |slots| == 16
      modifies this`top
      ensures Valid()
      ensures forall j: nat :: At(j) == if j / 16 == id / 16 then slots[j % 16] else old(At(j))
      ensures slots == LeafAt(old(top), topLevel, id) ==> forall j: nat :: At(j) == old(At(j))
    {
      hide Branch; hide Lookup; hide Span; hide Shaped; hide Spine; hide SamePath;
      ghost var t := top;
      WithLeafShaped(top, topLevel, id, slots);
      top := WithLeaf(top, topLevel, id, slots);
      forall j: nat ensures At(j) == if j / 16 == id / 16 then slots[j % 16] else old(At(j)) {
        GroupSpan(id, j, topLevel);
        if j < Span(topLevel) {
          WithLeafLookup(t, topLevel, id, slots, j);
          SmallQuotient(id, Span(topLevel)); SmallQuotient(j, Span(topLevel));
          PathIsGroup(id, j, topLevel);
        }
      }
      if slots == LeafAt(t, topLevel, id) {
        forall j: nat ensures At(j) == old(At(j)) {
          GroupSpan(id, j, topLevel);
          if j / 16 == id / 16 {
            SmallQuotient(id, Span(topLevel)); SmallQuotient(j, Span(topLevel));
            PathIsGroup(id, j, topLevel);
            LeafAtLookup(t, topLevel, id, j);
          }
        }
      }
    }

    /** The index part of yaffs_put_chunk_in_file: one chunk id is mapped anew, no other changes. */
    method Put(id: nat, c: nat) returns (ok: bool)
      requires Valid()
      modifies this
      ensures Valid() && (ok <==> id <= MAX_CHUNK_ID)
      ensures forall j: nat :: At(j) == if ok && j == id then c else old(At(j))
    {
      hide Branch; hide Lookup; hide Span; hide Shaped; hide Spine;
      ok := AddFind(id, None);
      if ok {
        ghost var t := top;
        var leaf := LeafAt(top, topLevel, id);
        forall j: nat | j / 16 == id / 16 ensures leaf[j % 16] == At(j) && (j % 16 == id % 16 <==> j == id) {
          GroupSpan(id, j, topLevel);
          SmallQuotient(id, Span(topLevel)); SmallQuotient(j, Span(topLevel));
          PathIsGroup(id, j, topLevel);
          LeafAtLookup(top, topLevel, id, j);
          SamePlace(id, j, 16);
        }
        PutLeaf(id, leaf[id % 16 := c]);
      }
    }

    /** yaffs_prune_tree: no lookup changes, and lowering the root never reaches a null top. */
    method Prune()
      requires Valid()
      modifies this
      ensures Valid() && topLevel <= old(topLevel)
      ensures forall id: nat :: At(id) == old(At(id))
      ensures Tidy(top, topLevel, false) && (topLevel > 0 ==> exists i :: 1 <= i < 8 && top.kids[i] != Null)
    {
      hide Branch; hide Span; hide PruneWorker;
      if topLevel < 1 {
        return;
      }
      PruneKeeps(top, topLevel, false);
      PruneTidy(top, topLevel, false);
      ghost var t, l := top, topLevel;
      top := PrunedTop(top, topLevel);
      assert forall id: nat :: Lookup(top, l, id) == Lookup(t, l, id);
      hide Lookup; hide SameLookups;
      var done := false;
      while topLevel > 0 && !done
        invariant Valid() && topLevel <= old(topLevel) && Tidy(top, topLevel, false)
        invariant done ==> topLevel > 0 && exists i :: 1 <= i < 8 && top.kids[i] != Null
        invariant forall id: nat :: At(id) == old(At(id))
        decreases topLevel, !done
      {
        if exists i :: 1 <= i < 8 && top.kids[i] != Null {
          done := true;
        } else {
          Lower();
        }
      }
    }

    /** The root is replaced by its only child. */
    method Lower()
      requires Valid() && topLevel > 0 && forall i | 1 <= i < 8 :: top.kids[i] == Null
      modifies this
      ensures Valid() && topLevel == old(topLevel) - 1 && top == old(top).kids[0]
      ensures forall id: nat :: At(id) == old(At(id))
    {
      hide Branch; hide Span; hide Lookup;
      ghost var t, l, kid := top, topLevel, top.kids[0];
      assert t == Node([kid, Null, Null, Null, Null, Null, Null, Null]) by {
        assert t.kids == [kid, Null, Null, Null, Null, Null, Null, Null];
      }
      SpanMonotone(l - 1, l);
      forall id: nat ensures (if id < Span(l - 1) then Lookup(kid, l - 1, id) else 0) == if id < Span(l) then Lookup(t, l, id) else 0 {
        if id < Span(l) { GrowLookup(kid, l - 1, id); }
      }
      top := top.kids[0];
      topLevel := topLevel - 1;
    }
  }

  /** yaffs_prune_worker on the whole tree. */
  method PrunedTop(t: Tree, level: nat) returns (r: Tree)
    requires Shaped(t, level)
    ensures r == PruneWorker(t, level, false)
  {
    r := Pruned(t, level, false);
  }

  /** yaffs_prune_worker, tnode by tnode. */
  method Pruned(t: Tree, level: nat, del0: bool) returns (r: Tree)
    requires Shaped(t, level)
    ensures r == PruneWorker(t, level, del0)
    decreases level
  {
    if t == Null {
      return t;
    }
    var hasData := false;
    r := t;
    if level > 0 {
      var kids := t.kids;
      var i := 0;
      while i < 8
        invariant 0 <= i <= 8 && |kids| == 8
        invariant forall j | 0 <= j < i :: kids[j] == PruneWorker(t.kids[j], level - 1, if j == 0 then del0 else true)
        invariant forall j | i <= j < 8 :: kids[j] == t.kids[j]
        invariant hasData <==> exists j :: 0 <= j < i && kids[j] != Null
      {
        var kid := Pruned(kids[i], level - 1, if i == 0 then del0 else true);
        kids := kids[i := kid];
        hasData := hasData || kids[i] != Null;
        i := i + 1;
      }
      r := Node(kids);
      assert kids == seq(8, i requires 0 <= i < 8 => PruneWorker(t.kids[i], level - 1, if i == 0 then del0 else true));
    } else {
      var i := 0;
      while !hasData && i < 16
        invariant 0 <= i <= 16 && (hasData <==> exists j :: 0 <= j < i && t.slots[j] != 0)
      {
        hasData := t.slots[i] != 0;
        i := i + 1;
      }
    }
    if !hasData && del0 {
      r := Null;
    }
  }

  lemma GrowShaped(t: Tree, level: nat)
    requires Shaped(t, level)
    ensures var g := Node([t, Null, Null, Null, Null, Null, Null, Null]); Shaped(g, level + 1) && (Spine(t, level) ==> Spine(g, level + 1))
  {
  }

  lemma MaxSpan()
    ensures Span(MAX_LEVEL) == MAX_CHUNK_ID + 1
  {
    assert Span(0) == 16 && Span(1) == 128 && Span(2) == 1024 && Span(3) == 8192 && Span(4) == 65536;
  }

  /** Ids of one group are in a tree together or not at all. */
  lemma {:induction false} GroupSpan(a: nat, b: nat, level: nat)
    ensures a / 16 == b / 16 ==> (a < Span(level) <==> b < Span(level))
  {
    GroupQuotient(a, b, level);
    var n := Span(level);
    hide Span;
    ZeroQuotient(a, n); ZeroQuotient(b, n);
  }

  lemma ZeroQuotient(a: nat, n: nat)
    requires n > 0
    ensures a / n == 0 <==> a < n
  {
    if a >= n { DivMonotone(n, a, n); }
  }
}
