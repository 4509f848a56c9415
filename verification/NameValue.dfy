/** yaffs_nameval.c: names and values in one byte buffer of records, each a 32-bit length, a terminated name
    and a value; the buffer refines a finite map.
 */
module NameValue {
  import opened Options

  const ENODATA := 61
  const EEXIST := 17
  const ENOSPC := 28
  const ERANGE := 34

  type Byte = x: nat | x < 256

  /** A C string without its terminator. */
  type Name = s: seq<Byte> | forall i | 0 <= i < |s| :: s[i] != 0

  datatype Rec = Rec(name: Name, value: seq<Byte>)

  function RecLen(r: Rec): nat { 4 + |r.name| + 1 + |r.value| }

  // ----- lengths as four bytes

  function Bytes4(n: nat): (s: seq<Byte>)
    requires n < 0x1_0000_0000
    ensures |s| == 4
  {
    [n % 256, n / 256 % 256, n / 0x1_0000 % 256, n / 0x100_0000]
  }

  function Word(s: seq<Byte>, p: nat): nat
    requires p + 4 <= |s|
  {
    (s[p] as int) + 256 * (s[p + 1] as int) + 0x1_0000 * (s[p + 2] as int) + 0x100_0000 * (s[p + 3] as int)
  }

  lemma WordOfBytes(n: nat, s: seq<Byte>, p: nat)
    requires n < 0x1_0000_0000 && p + 4 <= |s| && s[p..p + 4] == Bytes4(n)
    ensures Word(s, p) == n
  {
    FourBytes(n);
    var b := s[p..p + 4];
    assert s[p] == b[0] && s[p + 1] == b[1] && s[p + 2] == b[2] && s[p + 3] == b[3];
  }

  lemma FourBytes(n: nat)
    ensures n == n % 256 + 256 * (n / 256 % 256) + 0x1_0000 * (n / 0x1_0000 % 256) + 0x100_0000 * (n / 0x100_0000)
  {
    var a, b, c := n / 256, n / 0x1_0000, n / 0x100_0000;
    assert n == 256 * a + n % 256;
    assert a == 256 * b + a % 256;
    assert b == 256 * c + b % 256;
  }

  // ----- records in the buffer

  ghost function EncodeRec(r: Rec): (s: seq<Byte>)
    requires RecLen(r) < 0x8000_0000
    ensures |s| == RecLen(r)
  {
    Bytes4(RecLen(r)) + r.name + [0] + r.value
  }

  ghost predicate Small(recs: seq<Rec>) {
    forall k | 0 <= k < |recs| :: RecLen(recs[k]) < 0x8000_0000
  }

  ghost function Encode(recs: seq<Rec>): seq<Byte>
    requires Small(recs)
  {
    if recs == [] then [] else Encode(recs[..|recs| - 1]) + EncodeRec(recs[|recs| - 1])
  }

  lemma {:induction false} EncodeAppend(a: seq<Rec>, b: seq<Rec>)
    requires Small(a) && Small(b)
    ensures Small(a + b) && Encode(a + b) == Encode(a) + Encode(b)
    decreases |b|
  {
    hide EncodeRec;
    if b == [] {
      assert a + b == a;
    } else {
      var n := |b| - 1;
      assert (a + b)[..|a + b| - 1] == a + b[..n];
      EncodeAppend(a, b[..n]);
    }
  }

  lemma {:induction false} EncodeOne(r: Rec)
    requires RecLen(r) < 0x8000_0000
    ensures Small([r]) && Encode([r]) == EncodeRec(r)
  {
    assert [r][..0] == [];
  }

  /** The buffer before, in and after record k. */
  lemma {:induction false} EncodeAround(recs: seq<Rec>, k: nat)
    requires Small(recs) && k < |recs|
    ensures Small(recs[..k]) && Small(recs[k + 1..])
    ensures Encode(recs) == Encode(recs[..k]) + EncodeRec(recs[k]) + Encode(recs[k + 1..])
  {
    assert recs == recs[..k] + ([recs[k]] + recs[k + 1..]);
    EncodeOne(recs[k]);
    EncodeAppend([recs[k]], recs[k + 1..]);
    EncodeAppend(recs[..k], [recs[k]] + recs[k + 1..]);
  }

  ghost predicate Distinct(recs: seq<Rec>) {
    forall i, j | 0 <= i < j < |recs| :: recs[i].name != recs[j].name
  }

  /** The buffer holds the records and ends with a zero length, four bytes at least before its end. */
  ghost predicate Holds(xb: seq<Byte>, recs: seq<Rec>) {
    && Small(recs) && Distinct(recs) && |xb| < 0x8000_0000
    && var used := |Encode(recs)|;
       used + 4 <= |xb| && xb[..used] == Encode(recs) && xb[used..used + 4] == [0, 0, 0, 0]
  }

  // ----- the map

  function IndexOf(recs: seq<Rec>, name: Name): (i: int)
    ensures -1 <= i < |recs|
    ensures i >= 0 ==> recs[i].name == name
    ensures i < 0 ==> forall k | 0 <= k < |recs| :: recs[k].name != name
  {
    if recs == [] then -1
    else if recs[0].name == name then 0
    else
      var r := IndexOf(recs[1..], name);
      if r < 0 then -1 else r + 1
  }

  /** The value of a name. */
  function Lookup(recs: seq<Rec>, name: Name): Option<seq<Byte>> {
    var i := IndexOf(recs, name);
    if i < 0 then None else Some(recs[i].value)
  }

  function Without(recs: seq<Rec>, name: Name): seq<Rec> {
    var i := IndexOf(recs, name);
    if i < 0 then recs else recs[..i] + recs[i + 1..]
  }

  lemma {:induction false} LookupIs(recs: seq<Rec>, k: nat)
    requires Distinct(recs) && k < |recs|
    ensures IndexOf(recs, recs[k].name) == k && Lookup(recs, recs[k].name) == Some(recs[k].value)
  {
    hide IndexOf;
  }

  lemma {:induction false} LookupNone(recs: seq<Rec>, name: Name)
    requires forall k | 0 <= k < |recs| :: recs[k].name != name
    ensures IndexOf(recs, name) == -1 && Lookup(recs, name) == None
  {
    hide IndexOf;
  }

  /** Deleting a name removes it and no other. */
  lemma {:induction false} DeleteMap(recs: seq<Rec>, name: Name, other: Name)
    requires Distinct(recs)
    ensures Distinct(Without(recs, name))
    ensures Lookup(Without(recs, name), other) == if other == name then None else Lookup(recs, other)
  {
    hide IndexOf;
    var i := IndexOf(recs, name);
    var w := Without(recs, name);
    if i >= 0 {
      assert forall k | 0 <= k < |w| :: w[k] == if k < i then recs[k] else recs[k + 1];
    }
    var j := IndexOf(recs, other);
    if j >= 0 && other != name {
      var k := if i >= 0 && i < j then j - 1 else j;
      assert w[k] == recs[j];
      LookupIs(w, k);
    } else {
      forall k | 0 <= k < |w| ensures w[k].name != other {
      }
      LookupNone(w, other);
    }
  }

  /** Setting a name changes its value and no other. */
  lemma {:induction false} SetMap(recs: seq<Rec>, name: Name, value: seq<Byte>, other: Name)
    requires Distinct(recs)
    ensures Distinct(Without(recs, name) + [Rec(name, value)])
    ensures Lookup(Without(recs, name) + [Rec(name, value)], other) == if other == name then Some(value) else Lookup(recs, other)
  {
    hide IndexOf; hide Without;
    DeleteMap(recs, name, name);
    DeleteMap(recs, name, other);
    var w := Without(recs, name);
    var s := w + [Rec(name, value)];
    forall k | 0 <= k < |w| ensures w[k].name != name {
      LookupIs(w, k);
    }
    if other == name {
      LookupIs(s, |w|);
    } else {
      var j := IndexOf(w, other);
      if j >= 0 {
        assert s[j] == w[j];
        LookupIs(s, j);
      } else {
        LookupNone(s, other);
      }
    }
  }

  // ----- walking the records

  /** Where record k begins. */
  ghost function Start(recs: seq<Rec>, k: nat): nat
    requires Small(recs) && k <= |recs|
  {
    |Encode(recs[..k])|
  }

  /** Record k as it lies in the buffer. */
  lemma {:induction false} RecordAt(xb: seq<Byte>, recs: seq<Rec>, k: nat)
    requires Holds(xb, recs) && k < |recs|
    ensures var p, n := Start(recs, k), RecLen(recs[k]);
      && p + n == Start(recs, k + 1) && p + n + 4 <= |xb| && xb[p..p + n] == EncodeRec(recs[k])
  {
    hide EncodeRec; hide Encode; hide Holds;
    HoldsFacts(xb, recs);
    EncodeAround(recs, k);
    var a, b := recs[..k], recs[k + 1..];
    EncodeOne(recs[k]);
    EncodeAppend(a, [recs[k]]);
    assert recs[..k + 1] == a + [recs[k]];
    MiddleSlice(Encode(a), EncodeRec(recs[k]), Encode(b), xb[|Encode(recs)|..]);
  }

  lemma MiddleSlice(a: seq<Byte>, e: seq<Byte>, b: seq<Byte>, t: seq<Byte>)
    ensures (a + e + b + t)[|a|..|a| + |e|] == e
  {
  }

  /** The parts of a record. */
  lemma {:induction false} RecordParts(xb: seq<Byte>, r: Rec, p: nat)
    requires RecLen(r) < 0x8000_0000 && p + RecLen(r) <= |xb| && xb[p..p + RecLen(r)] == EncodeRec(r)
    ensures Word(xb, p) == RecLen(r)
    ensures forall i | 0 <= i < |r.name| :: xb[p + 4 + i] == r.name[i]
    ensures xb[p + 4 + |r.name|] == 0
    ensures xb[p + 5 + |r.name|..p + RecLen(r)] == r.value
  {
    hide Word; hide Bytes4;
    var e := EncodeRec(r);
    var n := RecLen(r);
    assert e[..4] == Bytes4(n);
    assert xb[p..p + 4] == xb[p..p + n][..4];
    WordOfBytes(n, xb, p);
    forall i | 0 <= i < |r.name| ensures xb[p + 4 + i] == r.name[i] {
      assert xb[p + 4 + i] == xb[p..p + n][4 + i];
    }
    assert xb[p + 4 + |r.name|] == xb[p..p + n][4 + |r.name|];
    assert xb[p + 5 + |r.name|..p + n] == xb[p..p + n][5 + |r.name|..];
  }

  /** After the last record comes a zero length. */
  lemma {:induction false} EndOfRecords(xb: seq<Byte>, recs: seq<Rec>)
    requires Holds(xb, recs)
    ensures Start(recs, |recs|) == |Encode(recs)| && Word(xb, |Encode(recs)|) == 0
  {
    assert recs[..|recs|] == recs;
    var used := |Encode(recs)|;
    var t := xb[used..used + 4];
    assert xb[used] == t[0] && xb[used + 1] == t[1] && xb[used + 2] == t[2] && xb[used + 3] == t[3];
  }

  lemma StartNone(recs: seq<Rec>)
    requires Small(recs)
    ensures Start(recs, 0) == 0
  {
  }

  lemma NameByte(s: Name, i: nat)
    requires i < |s|
    ensures s[i] != 0
  {
  }

  /** strncmp against a stored name, as a test for equality. */
  method SameName(xb: array<Byte>, p: nat, name: Name, n: nat, ghost stored: Name) returns (same: bool)
    requires |stored| < n && p + |stored| < xb.Length
    requires (forall i | 0 <= i < |stored| :: xb[p + i] == stored[i]) && xb[p + |stored|] == 0
    ensures same <==> stored == name
  {
    var i := 0;
    while i < n
      invariant i <= |stored| && i <= |name| && forall j | 0 <= j < i :: stored[j] == name[j]
      decreases n - i
    {
      var c2 := if i < |name| then name[i] else 0;
      if xb[p + i] != c2 {
        return false;
      }
      if c2 == 0 {
        if i < |stored| { NameByte(stored, i); }
        assert stored == name;
        return true;
      }
      i := i + 1;
    }
    same := true;
  }

  /** The length of the record at pos, or 0 where no length is left to read. */
  function SizeAt(xb: seq<Byte>, pos: nat): nat {
    if pos + 4 < |xb| then Word(xb, pos) else 0
  }

  lemma {:induction false} SizeOfRecord(xb: seq<Byte>, recs: seq<Rec>, k: nat)
    requires Holds(xb, recs) && k <= |recs|
    ensures SizeAt(xb, Start(recs, k)) == if k < |recs| then RecLen(recs[k]) else 0
  {
    hide Word; hide EncodeRec;
    EndOfRecords(xb, recs);
    if k < |recs| {
      RecordAt(xb, recs, k);
      RecordParts(xb, recs[k], Start(recs, k));
    }
  }

  class XattrBuffer {
    const xb: array<Byte>
    /** The records in the buffer. */
    ghost var recs: seq<Rec>

    ghost predicate Valid()
      reads this, xb
    {
      Holds(xb[..], recs)
    }

    /** A cleared buffer. */
    constructor (size: nat)
      requires 4 <= size < 0x8000_0000
      ensures Valid() && recs == [] && xb.Length == size && fresh(xb)
    {
      xb := new Byte[size](_ => 0);
      recs := [];
    }

    /** nval_find. */
    method Find(name: Name) returns (pos: int, existSize: nat)
      requires Valid()
      ensures var i := IndexOf(recs, name);
        if i < 0 then pos == -ENODATA && existSize == 0 else pos == Start(recs, i) && existSize == RecLen(recs[i])
    {
      hide Word; hide EncodeRec; hide Encode; hide IndexOf; hide Start;
      ghost var k := 0;
      StartNone(recs);
      pos := 0;
      SizeOfRecord(xb[..], recs, 0);
      var size := FirstSize();
      while size > 0 && size < xb.Length && pos + size < xb.Length
        invariant 0 <= k <= |recs| && pos == Start(recs, k) && size == (if k < |recs| then RecLen(recs[k]) else 0)
        invariant forall j | 0 <= j < k :: recs[j].name != name
        decreases |recs| - k
      {
        RecordAt(xb[..], recs, k);
        RecordParts(xb[..], recs[k], pos);
        var same := SameName(xb, pos + 4, name, size, recs[k].name);
        if same {
          LookupIs(recs, k);
          return pos, size;
        }
        pos := pos + size;
        k := k + 1;
        SizeOfRecord(xb[..], recs, k);
        size := NextSize(pos);
      }
      if k < |recs| { RecordAt(xb[..], recs, k); }
      LookupNone(recs, name);
      pos, existSize := -ENODATA, 0;
    }

    /** The length word at the start of the buffer. */
    method FirstSize() returns (size: nat)
      requires Valid()
      ensures size == SizeAt(xb[..], 0)
    {
      size := Word(xb[..], 0);
      if xb.Length == 4 { EmptyBuffer(xb[..], recs); }
    }

    method NextSize(pos: nat) returns (size: nat)
      ensures size == SizeAt(xb[..], pos)
    {
      if pos < xb.Length - 4 {
        size := Word(xb[..], pos);
      } else {
        size := 0;
      }
    }

    /** nval_used. */
    method Used() returns (pos: nat)
      requires Valid()
      ensures pos == |Encode(recs)|
    {
      hide Word; hide EncodeRec; hide Encode; hide Start;
      ghost var k := 0;
      StartNone(recs);
      EndOfRecords(xb[..], recs);
      pos := 0;
      SizeOfRecord(xb[..], recs, 0);
      var size := FirstSize();
      while size > 0 && size < xb.Length && pos + size < xb.Length
        invariant 0 <= k <= |recs| && pos == Start(recs, k) && size == if k < |recs| then RecLen(recs[k]) else 0
        decreases |recs| - k
      {
        RecordAt(xb[..], recs, k);
        pos := pos + size;
        k := k + 1;
        SizeOfRecord(xb[..], recs, k);
        size := NextSize(pos);
      }
      if k < |recs| { RecordAt(xb[..], recs, k); }
    }

    /** nval_del: the later records move down over the deleted one. */
    method Del(name: Name) returns (r: int)
      requires Valid()
      modifies this`recs, xb
      ensures Valid() && recs == Without(old(recs), name)
      ensures r == if IndexOf(old(recs), name) < 0 then -ENODATA else 0
      ensures |Encode(old(recs))| == |Encode(recs)| + (if r == 0 then RecLen(old(recs)[IndexOf(old(recs), name)]) else 0)
    {
      hide Word; hide EncodeRec; hide Encode; hide IndexOf; hide Start; hide Holds;
      HoldsFacts(xb[..], recs);
      var pos, size := Find(name);
      if pos < 0 || pos >= xb.Length {
        NotFoundOrInside(xb[..], recs, IndexOf(recs, name));
        return -ENODATA;
      }
      CutRecord(pos, IndexOf(recs, name));
      r := 0;
    }

    /** The record at pos is cut out of the buffer. */
    method CutRecord(pos: nat, ghost i: nat)
      requires Valid() && i < |recs| && pos == Start(recs, i)
      modifies this`recs, xb
      ensures Valid() && recs == old(recs)[..i] + old(recs)[i + 1..]
      ensures |Encode(old(recs))| == |Encode(recs)| + RecLen(old(recs)[i])
    {
      hide Word; hide EncodeRec; hide Encode; hide Start; hide Holds; hide Small; hide Distinct;
      HoldsFacts(xb[..], recs);
      ghost var was := xb[..];
      RecordLength(was, recs, i);
      var size := Word(xb[..], pos);
      MoveDown(pos, size);
      DeletedRecord(was, xb[..], recs, i);
      HoldsFacts(xb[..], recs[..i] + recs[i + 1..]);
      recs := recs[..i] + recs[i + 1..];
    }

    /** The memcpy of nval_del, byte by byte from the front, and its memset. */
    method MoveDown(pos: nat, size: nat)
      requires pos + size <= xb.Length
      modifies xb
      ensures xb[..] == old(xb[..])[..pos] + old(xb[..])[pos + size..] + Zeros(size)
    {
      hide Zeros; hide Splice;
      ghost var was := xb[..];
      var i := pos;
      while i + size < xb.Length
        invariant pos <= i <= xb.Length - size
        invariant forall j | pos <= j < i :: xb[j] == was[j + size]
        invariant forall j | 0 <= j < xb.Length && (j < pos || i <= j) :: xb[j] == was[j]
      {
        xb[i] := xb[i + size];
        i := i + 1;
      }
      ghost var now := xb[..];
      assert now[..i] == was[..pos] + was[pos + size..];
      Clear(i, size);
      TailCleared(now, i, size);
    }

    /** nval_get: the value's length when no room is given, the value when it fits. */
    method Get(name: Name, room: nat) returns (r: int, data: seq<Byte>)
      requires Valid()
      ensures match Lookup(recs, name)
        case None => r == -ENODATA && data == []
        case Some(v) =>
          if room == 0 then r == |v| && data == [] else if |v| <= room then r == |v| && data == v else r == -ERANGE && data == []
    {
      hide Word; hide EncodeRec; hide Encode; hide IndexOf; hide Start;
      data := [];
      var pos, _ := Find(name);
      if pos < 0 {
        return -ENODATA, [];
      }
      ghost var i := IndexOf(recs, name);
      RecordAt(xb[..], recs, i);
      RecordParts(xb[..], recs[i], pos);
      ghost var start := pos;
      var size: int := Word(xb[..], pos);
      pos := pos + 4;
      size := size - 4;
      while xb[pos] != 0 && size > 0
        invariant start + 4 <= pos <= start + 4 + |name| && pos + size == start + RecLen(recs[i])
        decreases size
      {
        pos := pos + 1;
        size := size - 1;
      }
      if pos < start + 4 + |name| { NameByte(name, pos - start - 4); }
      pos := pos + 1;
      size := size - 1;
      if room == 0 {
        return size, [];
      }
      if size <= room {
        return size, xb[pos..pos + size];
      }
      r := -ERANGE;
    }

    /** nval_set.  The code checks that the record fits the buffer; its padding of the name writes four bytes more,
        so a record that passes must also leave those four bytes: that is the caller's part.
     */
    method Set(name: Name, value: seq<Byte>, create: bool, replace: bool) returns (r: int)
      requires Valid()
      requires var reclen, kept := RecLen(Rec(name, value)), |Encode(Without(recs, name))|;
        kept + reclen <= xb.Length ==> kept + reclen + 4 <= xb.Length
      modifies this`recs, xb
      ensures Valid()
      ensures r == SetResult(old(recs), name, value, create, replace, xb.Length)
      ensures recs == if r == 0 then Without(old(recs), name) + [Rec(name, value)] else old(recs)
    {
      hide Word; hide EncodeRec; hide Encode; hide IndexOf; hide Start;
      var pos, existSize := Find(name);
      if create && pos >= 0 {
        return -EEXIST;
      }
      if replace && pos < 0 {
        return -ENODATA;
      }
      var start := Used();
      var space := xb.Length - start + existSize;
      var reclen := 4 + |name| + 1 + |value|;
      KeptSize(xb[..], recs, name);
      if reclen > space {
        return -ENOSPC;
      }
      if pos >= 0 {
        var _ := Del(name);
        start := Used();
      }
      WriteRecord(Rec(name, value), start);
      r := 0;
    }

    /** The record goes after the others. */
    method WriteRecord(rec: Rec, start: nat)
      requires Valid() && start == |Encode(recs)| && start + RecLen(rec) + 4 <= xb.Length && IndexOf(recs, rec.name) < 0
      modifies this`recs, xb
      ensures Valid() && recs == old(recs) + [rec]
    {
      hide Word; hide EncodeRec; hide Encode; hide IndexOf; hide Start; hide Splice; hide Zeros; hide Assembled; hide Bytes4; hide Holds;
      ghost var was := xb[..];
      HoldsFacts(was, recs);
      var reclen := RecLen(rec);
      var pos := start;
      var len := Bytes4(reclen);
      CopyIn(pos, len);
      pos := pos + 4;
      CopyIn(pos, rec.name);
      Clear(pos + |rec.name|, reclen - |rec.name|);
      pos := pos + |rec.name| + 1;
      CopyIn(pos, rec.value);
      WrittenRecord(was, start, rec);
      AppendedRecord(was, xb[..], recs, rec);
      recs := recs + [rec];
    }

    /** memcpy into the buffer. */
    method CopyIn(pos: nat, data: seq<Byte>)
      requires pos + |data| <= xb.Length
      modifies xb
      ensures xb[..] == Splice(old(xb[..]), pos, data)
    {
      var i := 0;
      while i < |data|
        invariant i <= |data|
        invariant xb[..] == old(xb[..])[..pos] + data[..i] + old(xb[..])[pos + i..]
      {
        ghost var b := xb[..];
        xb[pos + i] := data[i];
        assert xb[..] == b[pos + i := data[i]];
        i := i + 1;
      }
    }

    /** The padding of strncpy. */
    method Clear(pos: nat, n: nat)
      requires pos + n <= xb.Length
      modifies xb
      ensures xb[..] == Splice(old(xb[..]), pos, Zeros(n))
    {
      CopyIn(pos, Zeros(n));
    }
  }

  lemma {:induction false} EmptyBuffer(xb: seq<Byte>, recs: seq<Rec>)
    requires Holds(xb, recs) && |xb| == 4
    ensures Word(xb, 0) == 0
  {
    assert Encode(recs) == [];
    EndOfRecords(xb, recs);
  }

  lemma {:induction false} RecordLength(xb: seq<Byte>, recs: seq<Rec>, i: nat)
    requires Holds(xb, recs) && i < |recs|
    ensures Start(recs, i) + RecLen(recs[i]) + 4 <= |xb| && Word(xb, Start(recs, i)) == RecLen(recs[i])
  {
    hide Word; hide EncodeRec; hide Encode; hide Holds; hide Small; hide Distinct; hide Start;
    HoldsFacts(xb, recs);
    SmallAt(recs, i);
    RecordAt(xb, recs, i);
    RecordParts(xb, recs[i], Start(recs, i));
  }

  lemma SmallAt(recs: seq<Rec>, i: nat)
    requires Small(recs) && i < |recs|
    ensures RecLen(recs[i]) < 0x8000_0000
  {
  }

  lemma NotFoundOrInside(xb: seq<Byte>, recs: seq<Rec>, i: int)
    requires Holds(xb, recs) && -1 <= i < |recs|
    ensures i >= 0 ==> Start(recs, i) < |xb|
  {
    if i >= 0 { RecordAt(xb, recs, i); }
  }

  /** A buffer from which record i was cut. */
  lemma {:induction false} DeletedRecord(xb: seq<Byte>, yb: seq<Byte>, recs: seq<Rec>, i: nat)
    requires Holds(xb, recs) && i < |recs| && Start(recs, i) + RecLen(recs[i]) <= |xb|
    requires var p, n := Start(recs, i), RecLen(recs[i]); yb == xb[..p] + xb[p + n..] + Zeros(n)
    ensures var w := recs[..i] + recs[i + 1..];
      Holds(yb, w) && |Encode(recs)| == |Encode(w)| + RecLen(recs[i])
  {
    hide EncodeRec; hide Encode; hide Holds; hide Small; hide Distinct;
    HoldsFacts(xb, recs);
    EncodeAround(recs, i);
    var a, b := recs[..i], recs[i + 1..];
    EncodeAppend(a, b);
    DistinctCut(recs, i);
    var t := xb[|Encode(recs)|..];
    CutMiddle(xb, yb, Encode(a), EncodeRec(recs[i]), Encode(b), t);
    Assemble(a + b, t + Zeros(RecLen(recs[i])));
  }

  lemma HoldsFacts(xb: seq<Byte>, recs: seq<Rec>)
    requires Holds(xb, recs)
    ensures Small(recs) && Distinct(recs) && |xb| < 0x8000_0000 && |Encode(recs)| + 4 <= |xb|
    ensures xb == Encode(recs) + xb[|Encode(recs)|..] && xb[|Encode(recs)|..][..4] == [0, 0, 0, 0]
  {
    hide Encode; hide Small; hide Distinct;
    var used := |Encode(recs)|;
    assert xb == xb[..used] + xb[used..];
    assert xb[used..][..4] == xb[used..used + 4];
  }

  lemma Assemble(recs: seq<Rec>, t: seq<Byte>)
    requires Small(recs) && Distinct(recs) && |t| >= 4 && t[..4] == [0, 0, 0, 0] && |Encode(recs)| + |t| < 0x8000_0000
    ensures Holds(Encode(recs) + t, recs)
  {
    hide Encode; hide Small; hide Distinct;
    var xb, used := Encode(recs) + t, |Encode(recs)|;
    assert xb[..used] == Encode(recs);
    assert xb[used..used + 4] == t[..4];
  }

  lemma DistinctCut(recs: seq<Rec>, i: nat)
    requires Distinct(recs) && i < |recs|
    ensures Distinct(recs[..i] + recs[i + 1..])
  {
    var w := recs[..i] + recs[i + 1..];
    assert forall k | 0 <= k < |w| :: w[k] == if k < i then recs[k] else recs[k + 1];
  }

  lemma CutMiddle(xb: seq<Byte>, yb: seq<Byte>, a: seq<Byte>, e: seq<Byte>, b: seq<Byte>, t: seq<Byte>)
    requires xb == a + e + b + t && |a| + |e| <= |xb| && yb == xb[..|a|] + xb[|a| + |e|..] + Zeros(|e|)
    ensures yb == a + b + (t + Zeros(|e|))
  {
    hide Zeros;
  }

  ghost function SetResult(recs: seq<Rec>, name: Name, value: seq<Byte>, create: bool, replace: bool, size: nat): int
    requires Small(Without(recs, name))
  {
    if create && IndexOf(recs, name) >= 0 then -EEXIST
    else if replace && IndexOf(recs, name) < 0 then -ENODATA
    else if |Encode(Without(recs, name))| + RecLen(Rec(name, value)) > size then -ENOSPC
    else 0
  }

  /** What deletion leaves, in bytes. */
  lemma {:induction false} KeptSize(xb: seq<Byte>, recs: seq<Rec>, name: Name)
    requires Holds(xb, recs)
    ensures Small(Without(recs, name))
    ensures |Encode(recs)| == |Encode(Without(recs, name))| + (if IndexOf(recs, name) >= 0 then RecLen(recs[IndexOf(recs, name)]) else 0)
    ensures IndexOf(Without(recs, name), name) < 0
  {
    hide IndexOf; hide Encode; hide EncodeRec;
    var i := IndexOf(recs, name);
    DeleteMap(recs, name, name);
    if i >= 0 {
      EncodeAround(recs, i);
      EncodeAppend(recs[..i], recs[i + 1..]);
    }
    GoneIndex(Without(recs, name), name);
  }

  lemma GoneIndex(recs: seq<Rec>, name: Name)
    requires Lookup(recs, name) == None
    ensures IndexOf(recs, name) < 0
  {
  }

  /** A record written after the others, with the four zero bytes its padding leaves. */
  lemma {:induction false} AppendedRecord(xb: seq<Byte>, yb: seq<Byte>, recs: seq<Rec>, rec: Rec)
    requires Holds(xb, recs) && IndexOf(recs, rec.name) < 0 && |Encode(recs)| + RecLen(rec) + 4 <= |xb|
    requires yb == Assembled(xb, |Encode(recs)|, rec)
    ensures Holds(yb, recs + [rec])
  {
    hide Encode; hide IndexOf; hide Holds; hide Small; hide Distinct;
    HoldsFacts(xb, recs);
    EncodeOne(rec);
    EncodeAppend(recs, [rec]);
    DistinctMore(recs, rec);
    hide EncodeRec;
    var used := |Encode(recs)|;
    var rest := xb[used + RecLen(rec) + 4..];
    assert xb[..used] == Encode(recs);
    assert yb == Encode(recs + [rec]) + ([0, 0, 0, 0] + rest);
    Assemble(recs + [rec], [0, 0, 0, 0] + rest);
  }

  lemma DistinctMore(recs: seq<Rec>, rec: Rec)
    requires Distinct(recs) && IndexOf(recs, rec.name) < 0
    ensures Distinct(recs + [rec])
  {
    hide IndexOf;
  }

  ghost function Assembled(xb: seq<Byte>, start: nat, rec: Rec): seq<Byte>
    requires start + RecLen(rec) + 4 <= |xb| && RecLen(rec) < 0x8000_0000
  {
    xb[..start] + EncodeRec(rec) + [0, 0, 0, 0] + xb[start + RecLen(rec) + 4..]
  }

  function Zeros(n: nat): (z: seq<Byte>)
    ensures |z| == n
  {
    seq(n, _ => 0)
  }

  /** x with the bytes from pos on replaced by d. */
  function Splice(x: seq<Byte>, pos: nat, d: seq<Byte>): (y: seq<Byte>)
    requires pos + |d| <= |x|
    ensures |y| == |x|
  {
    x[..pos] + d + x[pos + |d|..]
  }

  lemma TailCleared(x: seq<Byte>, i: nat, n: nat)
    requires i + n == |x|
    ensures Splice(x, i, Zeros(n)) == x[..i] + Zeros(n)
  {
  }

  lemma SpliceAfter(p: seq<Byte>, q: seq<Byte>, d: seq<Byte>)
    requires |d| <= |q|
    ensures Splice(p + q, |p|, d) == p + d + q[|d|..]
  {
  }

  /** Length, name, padding and value, one after the other. */
  lemma {:induction false} WrittenRecord(x: seq<Byte>, start: nat, rec: Rec)
    requires start + RecLen(rec) + 4 <= |x| && RecLen(rec) < 0x8000_0000
    ensures var n := |rec.name|;
            var reclen := RecLen(rec);
            Splice(Splice(Splice(Splice(x, start, Bytes4(reclen)), start + 4, rec.name), start + 4 + n, Zeros(reclen - n)), start + 5 + n, rec.value)
            == Assembled(x, start, rec)
  {
    hide Splice; hide Bytes4; hide Zeros;
    var n, reclen, len := |rec.name|, RecLen(rec), Bytes4(RecLen(rec));
    var p, q := x[..start], x[start..];
    assert x == p + q;
    ThreeSplices(p, q, len, rec.name, Zeros(reclen - n));
    var q3 := q[4 + reclen..];
    PaddedValue(p + len + rec.name, reclen - n, rec.value, q3);
    assert q3 == x[start + reclen + 4..];
  }

  lemma {:induction false} ThreeSplices(p: seq<Byte>, q: seq<Byte>, a: seq<Byte>, b: seq<Byte>, c: seq<Byte>)
    requires |a| + |b| + |c| <= |q|
    ensures Splice(Splice(Splice(p + q, |p|, a), |p| + |a|, b), |p| + |a| + |b|, c) == p + a + b + c + q[|a| + |b| + |c|..]
  {
    hide Splice;
    SpliceAfter(p, q, a);
    SpliceAfter(p + a, q[|a|..], b);
    SpliceAfter(p + a + b, q[|a|..][|b|..], c);
    assert q[|a|..][|b|..][|c|..] == q[|a| + |b| + |c|..];
  }

  /** The value goes over the padding after the terminator. */
  lemma {:induction false} PaddedValue(a: seq<Byte>, m: nat, v: seq<Byte>, q: seq<Byte>)
    requires m == 1 + |v| + 4
    ensures Splice(a + Zeros(m) + q, |a| + 1, v) == a + [0] + v + [0, 0, 0, 0] + q
  {
    hide Splice; hide Zeros;
    ZeroPieces(m, |v|);
    var z, t := Zeros(|v|), [0, 0, 0, 0] + q;
    assert a + Zeros(m) + q == (a + [0]) + (z + t);
    SpliceAfter(a + [0], z + t, v);
    assert (z + t)[|v|..] == t;
    assert (a + [0]) + v + t == a + [0] + v + [0, 0, 0, 0] + q;
  }

  lemma ZeroPieces(m: nat, v: nat)
    requires m == 1 + v + 4
    ensures Zeros(m) == [0] + Zeros(v) + [0, 0, 0, 0]
  {
  }

  /** The positions nval_set writes: the length, the padded name and the value. */
  ghost predicate Writes(start: nat, rec: Rec, p: nat) {
    || start <= p < start + 4
    || start + 4 <= p < start + 4 + RecLen(rec)
    || start + 5 + |rec.name| <= p < start + RecLen(rec)
  }

  /** They are inside the buffer if and only if four bytes are left after the record. */
  lemma {:induction false} WritesInsideIff(start: nat, rec: Rec, size: nat)
    ensures (forall p: nat | Writes(start, rec, p) :: p < size) <==> start + RecLen(rec) + 4 <= size
  {
    assert Writes(start, rec, start + RecLen(rec) + 3);
  }

  /** A record that the code's own check lets pass into an empty buffer of 8 bytes, although position 11 is written. */
  lemma PaddingOverrun()
    ensures var rec, start := Rec([1], [7, 7]), |Encode(Without([], [1]))|;
      SetResult([], rec.name, rec.value, false, false, 8) == 0 && Writes(start, rec, 11)
  {
    assert Without([], [1]) == [];
  }

  /** The check lets a record pass and yet writes past the end exactly when it leaves less than four bytes. */
  lemma {:induction false} OverrunIff(rs: seq<Rec>, rec: Rec, create: bool, replace: bool, size: nat)
    requires Small(Without(rs, rec.name)) && SetResult(rs, rec.name, rec.value, create, replace, size) == 0
    ensures var start := |Encode(Without(rs, rec.name))|;
      (exists p: nat :: Writes(start, rec, p) && p >= size) <==> size - (start + RecLen(rec)) < 4
  {
    var start := |Encode(Without(rs, rec.name))|;
    hide Encode; hide Without; hide SetResult; hide RecLen;
    WritesInsideIff(start, rec, size);
  }
}
