/** Checkpoint pages as values: what each page holds, where the pages of a checkpoint lie, and how a
    reader finds the next one.
 */
module CheckptLayout {
  import Bits
  import Division

  const VERSION := 8
  const SEQUENCE_CHECKPOINT_DATA := 0x21
  const LIMIT_32 := 0x1_0000_0000

  type Byte = x: nat | x < 256

  /** struct yaffs_checkpt_chunk_hdr. */
  datatype Hdr = Hdr(version: nat, seqNo: nat, sum: nat, xor: nat)

  /** A checkpoint chunk: tags, header and body. */
  datatype Chunk = Chunk(objId: int, chunkId: nat, seqNumber: nat, hdr: Hdr, body: seq<Byte>)

  type Place = (nat, nat)
  type Flash = map<Place, Chunk>

  /** checkpt_sum and checkpt_xor after some bytes. */
  function Sum(s: seq<Byte>): nat {
    if s == [] then 0 else (Sum(s[..|s| - 1]) + s[|s| - 1]) % LIMIT_32
  }

  function XorAll(s: seq<Byte>): nat {
    if s == [] then 0 else Bits.Xor(XorAll(s[..|s| - 1]), s[|s| - 1])
  }

  /** One wrong byte shows in both sums, so the header of the next page does not fit. */
  lemma {:induction false} OneByteShows(s: seq<Byte>, i: nat, b: Byte)
    requires i < |s| && b != s[i]
    ensures Sum(s[i := b]) != Sum(s) && XorAll(s[i := b]) != XorAll(s)
  {
    hide Sum; hide XorAll; hide Plus; hide Bits.Xor;
    SumChanged(s, i, b); XorChanged(s, i, b);
    SumSmall(s);
    PlusDiffers(Sum(s), s[i], b);
    if XorAll(s[i := b]) == XorAll(s) { XorBack(XorAll(s), s[i], b); }
  }

  lemma {:induction false} SumChanged(s: seq<Byte>, i: nat, b: Byte)
    requires i < |s|
    ensures Sum(s[i := b]) == Plus(Plus(Sum(s), b), LIMIT_32 - s[i])
  {
    hide Plus;
    var n, t := |s| - 1, s[i := b];
    SumLast(s); SumLast(t); SumSmall(s[..n]);
    if i == n {
      assert t[..n] == s[..n];
      PlusMinus(Sum(s[..n]), s[n], b);
    } else {
      assert t[..n] == s[..n][i := b] && t[n] == s[n];
      SumChanged(s[..n], i, b);
      PlusSwap(Sum(s[..n]), b, LIMIT_32 - s[i], s[n]);
    }
  }

  /** Addition in 32 bits. */
  function Plus(a: nat, b: nat): nat { (a + b) % LIMIT_32 }

  lemma SumLast(s: seq<Byte>)
    requires s != []
    ensures Sum(s) == Plus(Sum(s[..|s| - 1]), s[|s| - 1])
  {
  }

  lemma {:induction false} PlusPlus(a: nat, b: nat, c: nat)
    ensures Plus(Plus(a, b), c) == Plus(a, b + c)
  {
    var q, r := (a + b) / LIMIT_32, (a + b) % LIMIT_32;
    assert a + (b + c) == q * LIMIT_32 + (r + c);
  }

  lemma PlusMinus(a: nat, x: Byte, b: Byte)
    requires a < LIMIT_32
    ensures Plus(a, b) == Plus(Plus(Plus(a, x), b), LIMIT_32 - x)
  {
    PlusPlus(a, x, b); PlusPlus(a, x + b, LIMIT_32 - x); PlusPlus(a, b, LIMIT_32);
    hide Plus;
    PlusAll(Plus(a, b)); PlusSmall(a, b);
  }

  lemma PlusAll(a: nat)
    requires a < LIMIT_32
    ensures Plus(a, LIMIT_32) == a
  {
  }

  lemma PlusSmall(a: nat, b: nat)
    ensures Plus(a, b) < LIMIT_32
  {
  }

  lemma PlusSwap(a: nat, b: nat, c: nat, d: nat)
    ensures Plus(Plus(Plus(a, b), c), d) == Plus(Plus(Plus(a, d), b), c)
  {
    hide Plus;
    PlusPlus(a, b, c); PlusPlus(a, b + c, d); PlusPlus(a, d, b); PlusPlus(a, d + b, c);
  }

  lemma PlusDiffers(a: nat, x: Byte, b: Byte)
    requires a < LIMIT_32 && b != x
    ensures Plus(Plus(a, b), LIMIT_32 - x) != a
  {
    PlusPlus(a, b, LIMIT_32 - x);
  }

  lemma {:induction false} XorChanged(s: seq<Byte>, i: nat, b: Byte)
    requires i < |s|
    ensures XorAll(s[i := b]) == Bits.Xor(Bits.Xor(XorAll(s), s[i]), b)
  {
    hide Bits.Xor;
    var n, t := |s| - 1, s[i := b];
    if i == n {
      assert t[..n] == s[..n];
      Bits.XorCancel(XorAll(s[..n]), s[n]);
    } else {
      assert t[..n] == s[..n][i := b] && t[n] == s[n];
      XorChanged(s[..n], i, b);
      XorThree(XorAll(s[..n]), s[i], b, s[n]);
    }
  }

  lemma SumSmall(s: seq<Byte>)
    ensures Sum(s) < LIMIT_32
  {
  }

  lemma {:induction false} XorThree(x: nat, y: nat, z: nat, w: nat)
    ensures Bits.Xor(Bits.Xor(Bits.Xor(x, y), z), w) == Bits.Xor(Bits.Xor(Bits.Xor(x, w), y), z)
  {
    hide Bits.Xor;
    Bits.XorAssoc(Bits.Xor(x, y), z, w); Bits.XorComm(z, w); Bits.XorAssoc(Bits.Xor(x, y), w, z);
    Bits.XorAssoc(x, y, w); Bits.XorComm(y, w); Bits.XorAssoc(x, w, y);
  }

  lemma {:induction false} XorBack(x: nat, y: nat, z: nat)
    requires Bits.Xor(Bits.Xor(x, y), z) == x
    ensures y == z
  {
    hide Bits.Xor;
    Bits.XorAssoc(x, y, z);
    Bits.XorCancel(Bits.Xor(y, z), x);
    Bits.XorSelf(x);
    Bits.XorComm(x, Bits.Xor(y, z));
    Bits.XorZeroEqual(y, z);
  }

  function Flat(pages: seq<seq<Byte>>): seq<Byte> {
    if pages == [] then [] else Flat(pages[..|pages| - 1]) + pages[|pages| - 1]
  }

  /** The header of page g: it sums up everything before the page. */
  function HdrOf(pages: seq<seq<Byte>>, g: nat): Hdr
    requires g <= |pages|
  {
    Hdr(VERSION, g, Sum(Flat(pages[..g])), XorAll(Flat(pages[..g])))
  }

  /** Page g of a checkpoint, in block b. */
  function PageOf(pages: seq<seq<Byte>>, g: nat, b: nat): Chunk
    requires g < |pages|
  {
    Chunk(b + 1, g + 1, SEQUENCE_CHECKPOINT_DATA, HdrOf(pages, g), pages[g])
  }

  // ----- places

  /** The place after another: the next chunk of the block, or the first of a later one. */
  ghost predicate Follows(a: Place, b: Place, per: nat) {
    if a.1 + 1 < per then b == (a.0, a.1 + 1) else b.1 == 0 && b.0 > a.0
  }

  ghost predicate Layout(places: seq<Place>, per: nat) {
    && (places != [] ==> places[0].1 == 0)
    && (forall g | 0 <= g < |places| - 1 :: Follows(places[g], places[g + 1], per))
    && (forall g | 0 <= g < |places| :: places[g].1 < per)
  }

  lemma {:induction false} Ascending(places: seq<Place>, per: nat, g: nat, h: nat)
    requires Layout(places, per) && g < h < |places|
    ensures places[g].0 < places[h].0 || (places[g].0 == places[h].0 && places[g].1 < places[h].1)
    decreases h
  {
    assert Follows(places[h - 1], places[h], per);
    if g < h - 1 { Ascending(places, per, g, h - 1); }
  }

  predicate Marked(flash: Flash, b: nat) {
    (b, 0) in flash && flash[(b, 0)].seqNumber == SEQUENCE_CHECKPOINT_DATA
  }

  ghost predicate StartsBlock(places: seq<Place>, b: nat) {
    exists g :: 0 <= g < |places| && places[g] == (b, 0)
  }

  /** The flash holds the pages at their places, and no other block looks like checkpoint data. */
  ghost predicate OnFlash(flash: Flash, pages: seq<seq<Byte>>, places: seq<Place>, per: nat) {
    && |places| == |pages| && Layout(places, per)
    && (forall g | 0 <= g < |pages| :: places[g] in flash && flash[places[g]] == PageOf(pages, g, places[g].0))
    && (forall b: nat | Marked(flash, b) :: StartsBlock(places, b))
  }

  /** The state of the flash: a checkpoint of whole pages in range, and erased blocks that hold nothing. */
  ghost predicate MediaOk(flash: Flash, pages: seq<seq<Byte>>, places: seq<Place>, per: nat, bodySize: nat, start: nat, end: nat, empty: set<nat>) {
    && OnFlash(flash, pages, places, per)
    && (forall g | 0 <= g < |pages| :: |pages[g]| == bodySize)
    && (forall g | 0 <= g < |places| :: start <= places[g].0 <= end && places[g].0 !in empty)
    && (forall b, p | b in empty :: (b, p) !in flash)
    && RestBlank(flash, places)
  }

  /** Nothing follows the last page in its block. */
  ghost predicate RestBlank(flash: Flash, places: seq<Place>) {
    places != [] ==> var last := places[|places| - 1]; forall p: nat | p > last.1 :: (last.0, p) !in flash
  }

  /** Blocks that a reader has entered after g pages. */
  ghost function Entered(places: seq<Place>, g: nat): nat
    requires g <= |places|
  {
    if g == 0 then 0 else Entered(places, g - 1) + (if places[g - 1].1 == 0 then 1 else 0)
  }

  lemma {:induction false} EnteredMonotone(places: seq<Place>, g: nat, h: nat)
    requires g <= h <= |places|
    ensures Entered(places, g) <= Entered(places, h)
    decreases h
  {
    if g < h { EnteredMonotone(places, g, h - 1); }
  }

  /** All blocks entered but the last are full. */
  lemma {:induction false} PagesByBlock(places: seq<Place>, per: nat, g: nat)
    requires Layout(places, per) && 0 < g <= |places|
    ensures Entered(places, g) > 0 && g == (Entered(places, g) - 1) * per + places[g - 1].1 + 1
  {
    if g > 1 {
      PagesByBlock(places, per, g - 1);
      assert Follows(places[g - 2], places[g - 1], per);
      assert Entered(places, g - 1) * per == (Entered(places, g - 1) - 1) * per + per;
    }
  }

  /** The first g pages lie in n blocks. */
  lemma {:induction false} EnteredIff(places: seq<Place>, per: nat, g: nat, n: nat)
    requires Layout(places, per) && g <= |places|
    ensures Entered(places, g) <= n <==> g <= n * per
  {
    if g > 0 {
      PagesByBlock(places, per, g);
      var e := Entered(places, g);
      assert e * per == (e - 1) * per + per;
      if e <= n { Bits.MulMonotone(e, n, per); } else { Bits.MulMonotone(n, e - 1, per); }
    }
  }

  /** The pages of a checkpoint of n bytes: one is always written at the end, even for no byte. */
  function PagesFor(n: nat, bodySize: nat): nat
    requires bodySize > 0
  {
    n / bodySize + 1
  }

  lemma {:induction false} PagesForIs(n: nat, bodySize: nat, pages: nat, offs: nat)
    requires n == pages * bodySize + offs && offs < bodySize
    ensures PagesFor(n, bodySize) == pages + 1
  {
    Bits.DivModUnique(n, pages, offs, bodySize);
  }

  lemma {:induction false} PagesForMore(n: nat, m: nat, bodySize: nat)
    requires bodySize > 0 && n <= m
    ensures PagesFor(n, bodySize) <= PagesFor(m, bodySize)
  {
    Division.DivMonotone(n, m, bodySize);
  }

  lemma {:induction false} FlatLength(pages: seq<seq<Byte>>, bodySize: nat)
    requires forall g | 0 <= g < |pages| :: |pages[g]| == bodySize
    ensures |Flat(pages)| == |pages| * bodySize
  {
    if pages != [] {
      FlatLength(pages[..|pages| - 1], bodySize);
      assert |pages| * bodySize == (|pages| - 1) * bodySize + bodySize;
    }
  }

  /** Where a search for the next checkpoint block must begin after g pages. */
  function SearchFrom(places: seq<Place>, g: nat, start: nat): nat
    requires g <= |places|
  {
    if g == 0 then start else places[g - 1].0 + 1
  }

  /** Between there and the block of page g no block is marked. */
  lemma {:induction false} NoneBetween(flash: Flash, pages: seq<seq<Byte>>, places: seq<Place>, per: nat, start: nat, g: nat, b: nat)
    requires OnFlash(flash, pages, places, per) && g < |places| && places[g].1 == 0
    requires SearchFrom(places, g, start) <= b < places[g].0
    ensures !Marked(flash, b)
  {
    if Marked(flash, b) {
      var h :| 0 <= h < |places| && places[h] == (b, 0);
      if h < g {
        if h < g - 1 { Ascending(places, per, h, g - 1); }
      } else if g < h {
        Ascending(places, per, g, h);
      }
      assert false;
    }
  }

  /** After the last page no block is marked. */
  lemma {:induction false} NoneAfter(flash: Flash, pages: seq<seq<Byte>>, places: seq<Place>, per: nat, start: nat, b: nat)
    requires OnFlash(flash, pages, places, per) && b >= SearchFrom(places, |places|, start)
    ensures !Marked(flash, b)
  {
    if Marked(flash, b) {
      var h :| 0 <= h < |places| && places[h] == (b, 0);
      if h < |places| - 1 { Ascending(places, per, h, |places| - 1); }
      assert false;
    }
  }

  lemma NextPlace(places: seq<Place>, per: nat, g: nat)
    requires Layout(places, per) && g < |places|
    ensures g == 0 ==> places[g].1 == 0
    ensures g > 0 ==> Follows(places[g - 1], places[g], per)
  {
  }

  // ----- one more page

  lemma {:induction false} FlatOne(pages: seq<seq<Byte>>, p: seq<Byte>)
    ensures Flat(pages + [p]) == Flat(pages) + p
  {
    assert (pages + [p])[..|pages|] == pages;
  }

  lemma {:induction false} OnFlashMore(flash: Flash, pages: seq<seq<Byte>>, places: seq<Place>, per: nat, body: seq<Byte>, at: Place)
    requires OnFlash(flash, pages, places, per) && per > 0 && at.1 < per
    requires if pages == [] then at.1 == 0 else Follows(places[|places| - 1], at, per)
    ensures var more := pages + [body];
            OnFlash(flash[at := PageOf(more, |pages|, at.0)], more, places + [at], per)
  {
    hide PageOf; hide Follows;
    var more, to := pages + [body], places + [at];
    var flash' := flash[at := PageOf(more, |pages|, at.0)];
    LayoutMore(places, at, per);
    forall g | 0 <= g < |more| ensures to[g] in flash' && flash'[to[g]] == PageOf(more, g, to[g].0) {
      if g < |pages| {
        SamePage(pages, body, g, to[g].0);
        Ascending(to, per, g, |places|);
      }
    }
    forall b: nat | Marked(flash', b) ensures StartsBlock(to, b) {
      if (b, 0) == at {
        assert to[|places|] == (b, 0);
      } else {
        assert Marked(flash, b);
        var g :| 0 <= g < |places| && places[g] == (b, 0);
        assert to[g] == (b, 0);
      }
    }
  }

  lemma {:induction false} LayoutMore(places: seq<Place>, at: Place, per: nat)
    requires Layout(places, per) && at.1 < per
    requires if places == [] then at.1 == 0 else Follows(places[|places| - 1], at, per)
    ensures Layout(places + [at], per)
  {
    var to := places + [at];
    forall g | 0 <= g < |to| - 1 ensures Follows(to[g], to[g + 1], per) {
      if g < |places| - 1 { assert Follows(places[g], places[g + 1], per); }
    }
  }

  lemma SamePage(pages: seq<seq<Byte>>, body: seq<Byte>, g: nat, b: nat)
    requires g < |pages|
    ensures PageOf(pages + [body], g, b) == PageOf(pages, g, b)
  {
    assert (pages + [body])[..g] == pages[..g];
  }

  // ----- bytes added one at a time

  lemma SumOne(s: seq<Byte>, x: Byte)
    ensures Sum(s + [x]) == (Sum(s) + x) % LIMIT_32 && XorAll(s + [x]) == Bits.Xor(XorAll(s), x)
  {
    assert (s + [x])[..|s|] == s;
  }
}
