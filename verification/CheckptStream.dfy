/** yaffs_checkptrw.c: a byte stream over the erased blocks of the device, written and read back. */
module CheckptStream {
  import opened CheckptLayout
  import Bits
  import Division

  class Stream {
    const start: nat
    const end: nat
    const per: nat
    const bodySize: nat
    /** n_erased_blocks - n_reserved_blocks, which stands still while a checkpoint is written. */
    const blocksAvail: int

    /** Erased blocks. */
    var empty: set<nat>
    var flash: Flash

    var hdr: Hdr
    var body: array<Byte>
    /** checkpt_byte_offs, counted from the end of the header. */
    var offs: nat
    var pageSeq: nat
    var sum: nat
    var xor: nat
    var curBlock: int
    var curChunk: int
    var nextBlock: int
    var blocksIn: nat

    /** The pages on flash, their places, and the bytes written or read so far. */
    ghost var pages: seq<seq<Byte>>
    ghost var places: seq<Place>
    ghost var bytes: seq<Byte>

    ghost predicate Geometry()
      reads this
    {
      start <= end && per > 0 && bodySize > 0 && body.Length == bodySize
    }

    ghost predicate Media()
      reads this
    {
      MediaOk(flash, pages, places, per, bodySize, start, end, empty)
    }

    /** Where the next page goes, or comes from, after g pages. */
    ghost predicate Cursor(g: nat)
      reads this
      requires g <= |places|
    {
      if g == 0 then curBlock < 0 && nextBlock == start
      else
        var last := places[g - 1];
        && nextBlock == last.0 + 1
        && if last.1 + 1 < per then curBlock == last.0 && curChunk == last.1 + 1 else curBlock < 0
    }

    /** The running sums are those of the bytes so far. */
    ghost predicate Sums()
      reads this
    {
      sum == Sum(bytes) && xor == XorAll(bytes)
    }

    // ----- writing

    /** blocks_in_checkpt counts the blocks in use. */
    ghost predicate Counted()
      reads this
    {
      blocksIn == Entered(places, |places|)
    }

    /** Erased blocks are taken in order: none is left behind. */
    ghost predicate NoneSkipped()
      reads this
    {
      forall b: nat | start <= b < nextBlock :: b !in empty
    }

    /** The erased blocks that were there for the checkpoint. */
    ghost function Budget(): nat
      reads this
    {
      |ErasedIn(empty, start, end)| + blocksIn
    }

    /** The pages that fit them. */
    ghost function Capacity(): nat
      reads this
    {
      Budget() * per
    }

    /** A stream opened for writing. */
    ghost predicate Opened()
      reads this
    {
      blocksAvail > 0 && Geometry() && Media() && Counted()
    }

    /** The next page can be written, if there is room. */
    ghost predicate Live()
      reads this
    {
      Sums() && pageSeq == |pages| <= |places| && Cursor(|pages|) && hdr == HdrOf(pages, |pages|) && NoneSkipped()
    }

    /** A flush has failed: no later one will succeed. */
    ghost predicate Dead()
      reads this
    {
      curBlock < 0 && nextBlock == -1 && |pages| == Budget() * per
    }

    /** The bytes after which the first flush fails: one page more than the erased blocks have. */
    ghost function Limit(): nat
      reads this
    {
      Pages(Budget() * per + 1, bodySize)
    }

    ghost predicate Writing()
      reads this, body
    {
      && Opened() && Live() && offs < bodySize && bytes == Flat(pages) + body[..offs]
      && (forall i | offs <= i < bodySize :: body[i] == 0)
    }

    /** After a failed flush the buffer stays full, and each further byte is stored one place further past its end. */
    ghost predicate Stuck()
      reads this
    {
      Opened() && Dead() && Flat(pages) <= bytes && offs >= bodySize && |bytes| == Limit() + (offs - bodySize)
    }

    /** A device whose erased blocks hold nothing and on which nothing looks like a checkpoint. */
    constructor (start: nat, end: nat, per: nat, bodySize: nat, blocksAvail: int, empty: set<nat>, flash: Flash)
      requires start <= end && per > 0 && bodySize > 0
      requires forall b: nat :: !Marked(flash, b)
      requires forall b, p | b in empty :: (b, p) !in flash
      ensures Geometry() && Media() && pages == [] && fresh(body)
      ensures this.start == start && this.end == end && this.empty == empty && this.flash == flash && curBlock < 0
      ensures this.per == per && this.bodySize == bodySize && this.blocksAvail == blocksAvail
    {
      this.start, this.end, this.per, this.bodySize, this.blocksAvail := start, end, per, bodySize, blocksAvail;
      this.empty, this.flash := empty, flash;
      body := new Byte[bodySize];
      hdr, offs, pageSeq, sum, xor, curBlock, curChunk, nextBlock, blocksIn := Hdr(0, 0, 0, 0), 0, 0, 0, 0, -1, -1, 0, 0;
      pages, places, bytes := [], [], [];
    }

    /** yaffs2_checkpt_init_chunk_hdr on a cleared buffer. */
    method InitChunk()
      requires Geometry()
      modifies this`hdr, this`offs, body
      ensures offs == 0 && hdr == Hdr(VERSION, pageSeq, sum, xor) && forall i | 0 <= i < bodySize :: body[i] == 0
    {
      for i := 0 to body.Length
        invariant forall j | 0 <= j < i :: body[j] == 0
      {
        body[i] := 0;
      }
      hdr := Hdr(VERSION, pageSeq, sum, xor);
      offs := 0;
    }

    /** yaffs2_checkpt_open for writing, on a device whose old checkpoint has been erased. */
    method OpenWrite() returns (ok: bool)
      requires Geometry() && Media() && pages == []
      modifies this`pageSeq, this`sum, this`xor, this`curBlock, this`curChunk, this`nextBlock, this`blocksIn, this`bytes, this`hdr, this`offs, body
      ensures ok <==> blocksAvail > 0
      ensures ok ==> Writing() && bytes == [] && Budget() == |ErasedIn(empty, start, end)|
      ensures !ok ==> curBlock == old(curBlock) && curChunk == old(curChunk) && nextBlock == old(nextBlock) && blocksIn == old(blocksIn)
    {
      hide MediaOk; hide Sum; hide XorAll; hide Flat; hide HdrOf; hide Entered;
      if blocksAvail <= 0 {
        return false;
      }
      MediaPlaces(flash, pages, places, per, bodySize, start, end, empty);
      NothingYet(pages, places);
      Reset();
      InitChunk();
      assert body[..0] == [];
      ok := true;
    }

    /** The part of yaffs2_checkpt_open common to writing and reading. */
    method Reset()
      modifies this`pageSeq, this`sum, this`xor, this`curBlock, this`curChunk, this`nextBlock, this`blocksIn, this`bytes
      ensures pageSeq == 0 && sum == 0 && xor == 0 && curBlock == -1 && curChunk == -1 && nextBlock == start && blocksIn == 0 && bytes == []
    {
      pageSeq, sum, xor, curBlock, curChunk, nextBlock := 0, 0, 0, -1, -1, start;
      blocksIn := 0;
      bytes := [];
    }

    /** yaffs2_checkpt_find_erased_block. */
    method FindErasedBlock()
      requires Geometry() && (nextBlock >= start || nextBlock == -1)
      modifies this`curBlock, this`nextBlock
      ensures curBlock < 0 ==> curBlock == -1 && nextBlock == -1
      ensures curBlock >= 0 ==> old(nextBlock) <= curBlock <= end && curBlock in empty && nextBlock == curBlock + 1
                                && forall b: nat | old(nextBlock) <= b < curBlock :: b !in empty
      ensures curBlock >= 0 <==> blocksAvail > 0 && old(nextBlock) >= 0 && AnyErased(empty, old(nextBlock), end)
    {
      if nextBlock >= 0 && nextBlock <= end && blocksAvail > 0 {
        var i: int := nextBlock;
        while i <= end
          invariant nextBlock <= i && forall b: nat | nextBlock <= b < i :: b !in empty
        {
          if i in empty {
            nextBlock := i + 1;
            curBlock := i;
            return;
          }
          i := i + 1;
        }
      }
      nextBlock, curBlock := -1, -1;
    }

    /** There is an erased block for the next page. */
    ghost predicate Room()
      reads this
    {
      curBlock >= 0 || (blocksAvail > 0 && nextBlock >= 0 && AnyErased(empty, nextBlock, end))
    }

    /** The block for the next page. */
    method ChooseBlock() returns (ok: bool)
      requires Geometry() && Media() && |places| == |pages| && (Dead() || (Cursor(|pages|) && NoneSkipped()))
      modifies this`curBlock, this`nextBlock, this`curChunk
      ensures ok <==> old(Room())
      ensures !ok ==> curBlock == -1 && nextBlock == -1
      ensures ok ==> start <= curBlock <= end && 0 <= curChunk < per && nextBlock == curBlock + 1
      ensures ok ==> NextAt(curBlock, curChunk) && (curChunk == 0 <==> curBlock in empty)
      ensures ok ==> forall b: nat | start <= b < curBlock :: b !in empty
    {
      hide OnFlash;
      AsManyPlaces(flash, pages, places, per);
      if curBlock < 0 {
        FindErasedBlock();
        curChunk := 0;
        if curBlock < 0 {
          return false;
        }
        assert curBlock in empty;
      }
      ok := true;
    }

    /** The place comes after all the others. */
    ghost predicate NextAt(b: int, p: int)
      reads this
    {
      && b >= 0 && p >= 0
      && if places == [] then p == 0 else Follows(places[|places| - 1], (b, p), per)
    }

    /** The write of one page. */
    method WritePage()
      requires Geometry() && Media() && pageSeq == |pages| == |places| && hdr == HdrOf(pages, |pages|)
      requires start <= curBlock <= end && 0 <= curChunk < per && nextBlock == curBlock + 1
      requires NextAt(curBlock, curChunk) && (curChunk == 0 <==> curBlock in empty)
      requires Counted() && forall b: nat | start <= b < curBlock :: b !in empty
      modifies this`empty, this`blocksIn, this`flash, this`pages, this`places
      ensures NoneSkipped() && Counted() && Budget() == old(Budget())
      ensures Media() && pages == old(pages) + [body[..]] && places == old(places) + [(curBlock as nat, curChunk as nat)]
    {
      hide OnFlash; hide HdrOf;
      ghost var at: Place := (curBlock, curChunk);
      var page := body[..];
      OnFlashMore(flash, pages, places, per, page, at);
      HdrStays(pages, page);
      EnteredMore(places, at);
      if curChunk == 0 {
        OneLess(empty, start, end, curBlock);
        empty := empty - {curBlock};
        blocksIn := blocksIn + 1;
      }
      flash := flash[(curBlock, curChunk) := Chunk(nextBlock, pageSeq + 1, SEQUENCE_CHECKPOINT_DATA, hdr, page)];
      pages, places := pages + [page], places + [at];
    }

    /** yaffs2_checkpt_flush_buffer: the buffer becomes the next page, as long as an erased block has room for it. */
    method Flush() returns (ok: bool)
      requires Opened() && (Live() || Dead())
      modifies this, body
      ensures body == old(body) && bytes == old(bytes) && Budget() == old(Budget()) && Opened()
      ensures ok <==> |old(pages)| < Budget() * per
      ensures !ok ==> Dead() && pages == old(pages) && offs == old(offs) && body[..] == old(body[..])
      ensures ok ==> pages == old(pages) + [old(body[..])] && Cursor(|pages|) && pageSeq == |pages| && NoneSkipped() && offs == 0
      ensures ok ==> Sums() && hdr == Hdr(VERSION, |pages|, sum, xor) && forall i | 0 <= i < bodySize :: body[i] == 0
    {
      hide OnFlash; hide Sum; hide XorAll; hide HdrOf; hide Follows; hide Entered; hide ErasedIn; hide AnyErased; hide Flat;
      AsManyPlaces(flash, pages, places, per);
      if !Room() && !Dead() { NoneLeft(); }
      ok := ChooseBlock();
      if ok {
        FinishPage();
      }
    }

    /** The page is written where there is room for it, and the buffer made ready for the next. */
    method FinishPage()
      requires Opened() && Sums() && pageSeq == |pages| == |places| && hdr == HdrOf(pages, |pages|)
      requires start <= curBlock <= end && 0 <= curChunk < per && nextBlock == curBlock + 1
      requires NextAt(curBlock, curChunk) && (curChunk == 0 <==> curBlock in empty)
      requires forall b: nat | start <= b < curBlock :: b !in empty
      modifies this, body
      ensures body == old(body) && bytes == old(bytes) && Budget() == old(Budget()) && Opened() && |old(pages)| < Budget() * per
      ensures pages == old(pages) + [old(body[..])] && Cursor(|pages|) && pageSeq == |pages| && NoneSkipped() && offs == 0
      ensures Sums() && hdr == Hdr(VERSION, |pages|, sum, xor) && forall i | 0 <= i < bodySize :: body[i] == 0
    {
      hide OnFlash; hide Sum; hide XorAll; hide HdrOf; hide Follows; hide Entered; hide ErasedIn; hide Flat;
      WritePage();
      PagesFit();
      Advance();
      InitChunk();
    }

    /** When no erased block is left for the next page, all of them are full. */
    lemma NoneLeft()
      requires Geometry() && Media() && |places| == |pages| && Cursor(|pages|) && NoneSkipped() && Counted() && !Room() && blocksAvail > 0
      ensures |pages| == Budget() * per
    {
      hide OnFlash; hide Entered;
      forall b: nat | start <= b <= end ensures b !in empty {
        assert b < nextBlock || !AnyErased(empty, nextBlock, end);
      }
      assert ErasedIn(empty, start, end) == {};
      LayoutOf(flash, pages, places, per);
      if |places| == 0 {
        EnteredNone(places);
      } else {
        PagesByBlock(places, per, |places|);
        assert blocksIn * per == (blocksIn - 1) * per + per;
      }
    }

    /** The pages written fit the blocks that were there. */
    lemma PagesFit()
      requires Geometry() && Media() && |places| == |pages| && Counted()
      ensures |pages| <= blocksIn * per <= Budget() * per
    {
      hide OnFlash; hide Entered;
      LayoutOf(flash, pages, places, per);
      EnteredIff(places, per, |places|, blocksIn);
      Bits.MulMonotone(blocksIn, Budget(), per);
    }

    /** The cursor moves past the page just written. */
    method Advance()
      requires Geometry() && Media() && |places| == |pages| == pageSeq + 1 && 0 <= curBlock && 0 <= curChunk < per && nextBlock == curBlock + 1
      requires places[pageSeq] == (curBlock as nat, curChunk as nat)
      modifies this`pageSeq, this`curChunk, this`curBlock
      ensures pageSeq == |pages| && Cursor(|pages|)
    {
      hide OnFlash;
      pageSeq := pageSeq + 1;
      curChunk := curChunk + 1;
      if curChunk >= per {
        curChunk := 0;
        curBlock := -1;
      }
    }

    /** One byte into the buffer. */
    method PutByte(x: Byte)
      requires Writing()
      modifies this`sum, this`xor, this`offs, this`bytes, body
      ensures Opened() && Live() && bytes == old(bytes) + [x] && offs == old(offs) + 1 && bytes == Flat(pages) + body[..offs]
      ensures forall i | offs <= i < bodySize :: body[i] == 0
    {
      hide OnFlash; hide Sum; hide XorAll; hide HdrOf; hide Flat; hide Entered; hide ErasedIn;
      SumOne(bytes, x);
      ghost var before := body[..offs];
      body[offs] := x;
      assert body[..offs + 1] == before + [x];
      sum := (sum + x) % LIMIT_32;
      xor := Bits.Xor(xor, x);
      offs := offs + 1;
      bytes := bytes + [x];
    }

    /** The bytes so far are fewer than those the pages that fit and one more hold. */
    lemma BelowLimit()
      requires Opened() && offs <= bodySize && |bytes| == |Flat(pages)| + offs
      ensures |bytes| == Pages(|pages|, bodySize) + offs && |pages| <= Budget() * per
      ensures offs < bodySize || |pages| < Budget() * per ==> Pages(|pages|, bodySize) + offs <= Limit() && (offs < bodySize ==> |bytes| < Limit())
      ensures |pages| == Budget() * per && offs == bodySize ==> |bytes| == Limit()
      ensures |pages| < Budget() * per ==> |bytes| < Limit()
    {
      hide OnFlash; hide Entered; hide ErasedIn; hide Flat;
      AsManyPlaces(flash, pages, places, per);
      PagesFit();
      FlatLength(pages, bodySize);
      PagesNext(|pages|, Budget() * per, bodySize);
    }

    /** One turn of the loop in yaffs2_checkpt_wr. */
    method StoreByte(x: Byte) returns (ok: bool)
      requires Writing() || Stuck()
      modifies this, body
      ensures body == old(body) && bytes == old(bytes) + [x] && Budget() == old(Budget())
      ensures ok <==> |bytes| < Limit()
      ensures if ok then Writing() else Stuck()
    {
      hide OnFlash; hide Sum; hide XorAll; hide Flat; hide ErasedIn; hide Entered; hide HdrOf; hide Pages; hide Live;
      if offs < bodySize {
        PutByte(x);
        BelowLimit();
        ok := true;
        if offs >= bodySize {
          ok := FlushFull();
        }
      } else {
        StorePast(x);
        ok := Flush();
      }
    }

    /** A byte for which there is no place: it is stored past the end of the page. */
    method StorePast(x: Byte)
      requires Stuck()
      modifies this`sum, this`xor, this`offs, this`bytes
      ensures Stuck() && bytes == old(bytes) + [x] && offs == old(offs) + 1 && |bytes| > Limit()
      ensures sum == (old(sum) + x) % 0x1_0000_0000 && xor == Bits.Xor(old(xor), x)
    {
      hide OnFlash; hide Sum; hide XorAll; hide Flat; hide ErasedIn; hide Entered; hide Pages;
      sum := (sum + x) % LIMIT_32;
      xor := Bits.Xor(xor, x);
      offs := offs + 1;
      bytes := bytes + [x];
    }

    /** The flush of a full buffer. */
    method FlushFull() returns (ok: bool)
      requires Opened() && Live() && offs == bodySize && bytes == Flat(pages) + body[..offs]
      requires |pages| < Budget() * per ==> |bytes| < Limit()
      requires |pages| == Budget() * per ==> |bytes| == Limit()
      requires |pages| <= Budget() * per
      modifies this, body
      ensures body == old(body) && bytes == old(bytes) && Budget() == old(Budget())
      ensures ok <==> |bytes| < Limit()
      ensures if ok then Writing() else Stuck()
    {
      hide OnFlash; hide Sum; hide XorAll; hide Flat; hide ErasedIn; hide Entered; hide HdrOf; hide Pages; hide Counted;
      assert body[..offs] == body[..];
      FlatOne(pages, body[..]);
      ok := Flush();
      if ok {
        FlushedHeader(pages, bytes, sum, xor);
        assert body[..0] == [];
        AsManyPlaces(flash, pages, places, per);
      }
    }

    /** What yaffs2_checkpt_wr returns: all bytes, unless a flush fails before the last of them. */
    ghost function Accepted(n: nat): nat
      reads this
    {
      if n <= 1 || |bytes| + n <= Limit() then n else if |bytes| >= Limit() then 1 else Limit() - |bytes|
    }

    /** yaffs2_checkpt_wr: only the count of bytes is returned; a flush that fails at the last of them is not told. */
    method Wr(data: seq<Byte>) returns (n: nat)
      requires Writing() || Stuck()
      modifies this, body
      ensures body == old(body) && n == old(Accepted(|data|)) <= |data| && bytes == old(bytes) + data[..n]
      ensures Budget() == old(Budget()) && Limit() == old(Limit()) && if |bytes| < Limit() then Writing() else Stuck()
    {
      hide OnFlash; hide Sum; hide XorAll; hide Flat; hide ErasedIn; hide Entered; hide Pages;
      n := 0;
      var ok := true;
      StateByLimit();
      while n < |data| && ok
        invariant body == old(body) && n <= |data| && bytes == old(bytes) + data[..n] && Budget() == old(Budget())
        invariant if |bytes| < Limit() then Writing() else Stuck()
        invariant n > 0 ==> (ok <==> |bytes| < Limit())
        invariant !ok ==> n > 0 && (n == 1 || |bytes| == Limit())
        invariant ok && n > 0 ==> |bytes| < Limit()
        decreases |data| - n, ok
      {
        assert data[..n + 1] == data[..n] + [data[n]];
        ok := StoreByte(data[n]);
        n := n + 1;
      }
    }

    lemma StateByLimit()
      requires Writing() || Stuck()
      ensures if |bytes| < Limit() then Writing() else Stuck()
    {
      hide OnFlash; hide Sum; hide XorAll; hide ErasedIn; hide Entered; hide HdrOf; hide Pages;
      if offs < bodySize && Writing() { BelowLimit(); }
    }

    /** The buffer has been written past its end exactly when the bytes went past the limit. */
    lemma OffsByLimit()
      requires Writing() || Stuck()
      ensures offs > bodySize <==> |bytes| > Limit()
    {
      hide OnFlash; hide Sum; hide XorAll; hide ErasedIn; hide Entered; hide HdrOf; hide Pages;
      if offs < bodySize && Writing() { BelowLimit(); }
    }

    /** What the last page would be. */
    lemma LastPage()
      requires Writing()
      ensures |pages| <= Budget() * per && PagesFor(|bytes|, bodySize) == |pages| + 1
      ensures Shown(Flat(pages), bytes) && Shown(Flat(pages + [body[..]]), bytes)
    {
      hide OnFlash; hide Sum; hide XorAll; hide Flat; hide PagesFor; hide ErasedIn; hide Entered; hide HdrOf;
      FlatLength(pages, bodySize);
      PagesForIs(|bytes|, bodySize, |pages|, offs);
      FlatOne(pages, body[..]);
      PadTail(Flat(pages), body[..offs], body[offs..]);
      assert body[..] == body[..offs] + body[offs..];
      AsManyPlaces(flash, pages, places, per);
      PagesFit();
      PaddedShown(Flat(pages) + body[..], bytes);
    }

    /** What the last flush will find. */
    lemma {:induction false} BeforeClose()
      requires Writing() || Stuck()
      ensures Opened() && (Live() || Dead()) && |pages| <= Budget() * per
      ensures |pages| < Budget() * per ==> PagesFor(|bytes|, bodySize) == |pages| + 1 && Shown(Flat(pages + [body[..]]), bytes) && offs <= bodySize
      ensures |pages| == Budget() * per ==> PagesFor(|bytes|, bodySize) >= |pages| && Shown(Flat(pages), bytes)
    {
      hide OnFlash; hide Sum; hide XorAll; hide Flat; hide PagesFor; hide ErasedIn; hide Entered; hide Pages; hide HdrOf; hide Cursor;
      StateByLimit();
      if |bytes| < Limit() {
        LastPage();
      } else {
        PagesPast(|bytes|, bodySize, Budget() * per);
      }
    }

    /** yaffs_checkpt_close for writing: the buffer is always flushed, even when it holds no byte, and success reported
        whether or not that worked.
     */
    method CloseWrite() returns (ok: bool)
      requires Writing() || Stuck()
      modifies this, body
      ensures ok && body == old(body) && Opened() && Budget() == old(Budget())
      ensures |pages| == Least(Capacity(), PagesFor(|old(bytes)|, bodySize)) && Shown(Flat(pages), old(bytes))
      ensures offs > bodySize <==> old(offs) > bodySize
    {
      hide Flat; hide PagesFor; hide Cursor; hide Opened; hide Live; hide Dead;
      hide Budget; hide Shown; hide NoneSkipped; hide Sums; hide Writing; hide Stuck;
      BeforeClose();
      var flushed := Flush();
      ok := true;
    }

    /** yaffs2_wr_checkpt_data closes the stream even when it could not be opened: the flush then goes to where the last
        stream stopped.
     */
    method CloseRefused()
      requires Geometry() && blocksAvail <= 0
      modifies this`curBlock, this`curChunk, this`nextBlock, this`flash, this`empty, this`blocksIn, this`pageSeq, this`hdr, this`offs, body
      ensures old(curBlock) < 0 ==> flash == old(flash) && empty == old(empty) && blocksIn == old(blocksIn)
      ensures old(curBlock) >= 0 && old(curChunk) >= 0 ==>
        flash == old(flash)[(old(curBlock) as nat, old(curChunk) as nat) :=
                            Chunk(old(nextBlock), old(pageSeq) + 1, 0x21, old(hdr), old(body[..]))]
      ensures old(curBlock) >= 0 ==>
        if old(curChunk) == 0 then empty == old(empty) - {old(curBlock)} && blocksIn == old(blocksIn) + 1
        else empty == old(empty) && blocksIn == old(blocksIn)
      ensures old(curBlock) >= 0 ==>
        pageSeq == old(pageSeq) + 1 && nextBlock == old(nextBlock)
        && if old(curChunk) + 1 >= per then curChunk == 0 && curBlock == -1 else curChunk == old(curChunk) + 1 && curBlock == old(curBlock)
    {
      if curBlock < 0 {
        nextBlock, curBlock, curChunk := -1, -1, 0;
        return;
      }
      if curChunk == 0 {
        empty := empty - {curBlock};
        blocksIn := blocksIn + 1;
      }
      if curChunk >= 0 {
        flash := flash[(curBlock as nat, curChunk as nat) := Chunk(nextBlock, pageSeq + 1, SEQUENCE_CHECKPOINT_DATA, hdr, body[..])];
      }
      pageSeq := pageSeq + 1;
      curChunk := curChunk + 1;
      if curChunk >= per {
        curChunk, curBlock := 0, -1;
      }
      InitChunk();
    }

    // ----- reading

    ghost predicate Reading()
      reads this, body
    {
      && Geometry() && Media() && Sums() && pageSeq <= Readable() && |pages| == |places| && Cursor(pageSeq) && offs <= bodySize
      && blocksIn == Entered(places, pageSeq)
      && if pageSeq == 0 then offs == bodySize && bytes == []
         else body[..] == pages[pageSeq - 1] && bytes == Flat(pages[..pageSeq - 1]) + body[..offs]
    }

    /** checkpt_max_blocks. */
    function MaxBlocks(): nat
      requires start <= end
    {
      (end - start) / 16 + 2
    }

    lemma MaxBlocksIs()
      requires start <= end
      ensures MaxBlocks() == (end - start) / 16 + 2
    {
    }

    /** The pages a reader will come to: it enters only so many blocks. */
    ghost function Readable(): nat
      reads this
      requires start <= end
    {
      if |pages| <= MaxBlocks() * per then |pages| else MaxBlocks() * per
    }

    /** Page g can be reached when not too many blocks come before its end. */
    lemma ReachableIff(g: nat)
      requires Geometry() && Media() && g < |pages| == |places|
      ensures Entered(places, g + 1) <= MaxBlocks() <==> g < Readable()
    {
      hide OnFlash; hide Entered; hide MaxBlocks;
      LayoutOf(flash, pages, places, per);
      EnteredIff(places, per, g + 1, MaxBlocks());
    }

    /** yaffs2_checkpt_open for reading. */
    method OpenRead()
      requires Geometry() && Media()
      modifies this`pageSeq, this`sum, this`xor, this`curBlock, this`curChunk, this`nextBlock, this`blocksIn, this`offs, this`bytes
      ensures Reading() && bytes == []
    {
      hide OnFlash; hide Sum; hide XorAll; hide Flat; hide Entered;
      AsManyPlaces(flash, pages, places, per);
      NothingYet([], []);
      EnteredNone(places);
      Reset();
      offs := bodySize;
    }

    /** yaffs2_checkpt_find_block: the first block from nextBlock on that looks like checkpoint data. */
    method FindBlock()
      requires Geometry() && nextBlock >= 0
      modifies this`curBlock, this`nextBlock, this`blocksIn
      ensures curBlock >= 0 ==> old(blocksIn) < (end - start) / 16 + 2
      ensures curBlock >= 0 ==>
        && old(nextBlock) <= curBlock <= end && Marked(flash, curBlock) && (forall b: nat | old(nextBlock) <= b < curBlock :: !Marked(flash, b))
        && nextBlock == flash[(curBlock as nat, 0)].objId && blocksIn == old(blocksIn) + 1
      ensures curBlock < 0 ==> old(blocksIn) >= (end - start) / 16 + 2 || forall b: nat | old(nextBlock) <= b <= end :: !Marked(flash, b)
    {
      if blocksIn < MaxBlocks() {
        var i: nat := nextBlock;
        while i <= end
          invariant nextBlock <= i && forall b: nat | nextBlock <= b < i :: !Marked(flash, b)
        {
          if Marked(flash, i) {
            nextBlock := flash[(i, 0)].objId;
            curBlock := i;
            blocksIn := blocksIn + 1;
            return;
          }
          i := i + 1;
        }
      }
      nextBlock, curBlock := -1, -1;
    }

    /** The block and chunk of the next page, if it is found; past the last page it may be a blank chunk. */
    method Locate() returns (found: bool)
      requires Reading() && offs >= bodySize
      modifies this`curBlock, this`nextBlock, this`blocksIn, this`curChunk
      ensures pageSeq < Readable() ==>
        && found && places[pageSeq] == (curBlock as int, curChunk as int) && nextBlock == curBlock + 1
        && blocksIn == Entered(places, pageSeq + 1)
      ensures found ==> curBlock >= 0 && curChunk >= 0
      ensures found && pageSeq == Readable() ==> (curBlock as nat, curChunk as nat) !in flash
    {
      hide OnFlash; hide Sum; hide XorAll; hide Flat; hide Entered; hide MaxBlocks;
      if pageSeq < |pages| {
        NextEntered(flash, pages, places, per, pageSeq);
        ReachableIff(pageSeq);
      }
      if curBlock < 0 {
        if pageSeq < |pages| {
          FirstMarked(flash, pages, places, per, start, pageSeq);
          assert nextBlock <= places[pageSeq].0 <= end;
        } else {
          LastMarked(flash, pages, places, per, start, nextBlock);
        }
        MaxBlocksIs();
        FindBlock();
        assert pageSeq < |pages| ==> Marked(flash, places[pageSeq].0);
        curChunk := 0;
        if curBlock < 0 {
          return false;
        }
      } else if pageSeq < |pages| {
        EnteredUpTo(pageSeq);
      }
      found := true;
    }

    /** What a reader has entered is within its limit. */
    lemma EnteredUpTo(g: nat)
      requires Geometry() && Media() && |pages| == |places| && g <= Readable()
      ensures Entered(places, g) <= MaxBlocks()
    {
      hide OnFlash; hide Entered; hide MaxBlocks;
      LayoutOf(flash, pages, places, per);
      EnteredIff(places, per, g, MaxBlocks());
    }

    /** Reads the next page into the buffer and checks it: it passes exactly when there is one within the limit. */
    method Fetch() returns (ok: bool)
      requires Reading() && offs >= bodySize
      modifies this, body
      ensures body == old(body) && pages == old(pages) && places == old(places) && bytes == old(bytes)
      ensures ok <==> old(pageSeq) < old(Readable())
      ensures ok ==> Reading() && offs == 0
    {
      hide OnFlash; hide Sum; hide XorAll; hide Flat; hide Entered; hide HdrOf; hide MaxBlocks;
      ok := Locate();
      if !ok {
        return;
      }
      if pageSeq < |pages| {
        PageThere(flash, pages, places, per, pageSeq);
        assert old(body)[..offs] == old(body)[..];
        AllRead(pages, pageSeq, body[..], bytes);
        assert |pages[pageSeq]| == bodySize;
      }
      if (curBlock as nat, curChunk as nat) !in flash {
        return false;
      }
      var chunk := flash[(curBlock as nat, curChunk as nat)];
      ok := ReadPage(chunk);
    }

    /** The tags of a page and yaffs2_checkpt_check_chunk_hdr: its number, and the sums of all bytes read before it. Only a
        page that passes goes into the buffer.
     */
    method ReadPage(chunk: Chunk) returns (ok: bool)
      requires Geometry()
      modifies this`pageSeq, this`curChunk, this`curBlock, this`offs, body
      ensures ok <==> chunk.chunkId == old(pageSeq) + 1 && chunk.seqNumber == 0x21 && |chunk.body| == bodySize
                      && chunk.hdr.version == 8 && chunk.hdr.seqNo == old(pageSeq) && chunk.hdr.sum == sum && chunk.hdr.xor == xor
      ensures !ok ==> pageSeq == old(pageSeq) && offs == old(offs) && body[..] == old(body[..])
      ensures ok ==> pageSeq == old(pageSeq) + 1 && offs == 0 && body[..] == chunk.body
                     && curChunk == old(curChunk) + 1 && curBlock == if old(curChunk) + 1 >= per then -1 else old(curBlock)
    {
      if chunk.chunkId != pageSeq + 1 || chunk.seqNumber != SEQUENCE_CHECKPOINT_DATA || |chunk.body| != bodySize {
        return false;
      }
      ok := chunk.hdr == Hdr(VERSION, pageSeq, sum, xor);
      if ok {
        TakePage(chunk);
      }
    }

    /** The page goes into the buffer and the cursor moves on. */
    method TakePage(chunk: Chunk)
      requires Geometry() && |chunk.body| == bodySize
      modifies this`pageSeq, this`curChunk, this`curBlock, this`offs, body
      ensures pageSeq == old(pageSeq) + 1 && offs == 0 && body[..] == chunk.body
      ensures curChunk == old(curChunk) + 1 && curBlock == if old(curChunk) + 1 >= per then -1 else old(curBlock)
    {
      for i := 0 to bodySize
        modifies body
        invariant forall j | 0 <= j < i :: body[j] == chunk.body[j]
      {
        body[i] := chunk.body[i];
      }
      offs := 0;
      pageSeq := pageSeq + 1;
      curChunk := curChunk + 1;
      if curChunk >= per {
        curBlock := -1;
      }
    }

    /** One byte out of the buffer. */
    method GetByte() returns (x: Byte)
      requires Reading() && offs < bodySize && pageSeq > 0
      modifies this`sum, this`xor, this`offs, this`bytes
      ensures Reading() && pageSeq > 0 && bytes == old(bytes) + [x]
    {
      hide OnFlash; hide Sum; hide XorAll; hide Flat; hide Entered;
      x := body[offs];
      SumOne(bytes, x);
      assert body[..offs + 1] == body[..offs] + [x];
      sum := (sum + x) % LIMIT_32;
      xor := Bits.Xor(xor, x);
      offs := offs + 1;
      bytes := bytes + [x];
    }

    /** yaffs2_checkpt_rd: the next bytes of the checkpoint, whatever the sizes of the writes and reads; every page's
        sequence number, sum and xor pass on the way. A read stops where the pages within reach end.
     */
    method Rd(n: nat) returns (data: seq<Byte>)
      requires Reading()
      modifies this, body
      ensures body == old(body) && pages == old(pages) && bytes == old(bytes) + data && bytes <= Flat(pages)
      ensures |data| <= n && (|data| == n ==> Reading())
      ensures start <= end && (|data| == n <==> |old(bytes)| + n <= Readable() * bodySize)
    {
      hide OnFlash; hide Sum; hide XorAll; hide Flat; hide Entered; hide MaxBlocks;
      data := [];
      ghost var g := Readable();
      HaveRead();
      while |data| < n
        invariant Reading() && body == old(body) && pages == old(pages) && |data| <= n && Readable() == g
        invariant bytes == old(bytes) + data && |bytes| <= g * bodySize
        decreases n - |data|
      {
        if offs >= bodySize {
          HaveRead();
          ReadPrefix(pages, pageSeq, offs, bytes);
          var ok := Fetch();
          if !ok {
            return;
          }
        }
        var x := GetByte();
        data := data + [x];
        HaveRead();
      }
      ReadPrefix(pages, pageSeq, offs, bytes);
    }

    /** The bytes read so far, counted in pages. */
    lemma HaveRead()
      requires Reading()
      ensures |bytes| == if pageSeq == 0 then 0 else (pageSeq - 1) * bodySize + offs
      ensures |bytes| <= pageSeq * bodySize <= Readable() * bodySize
      ensures offs == bodySize ==> |bytes| == pageSeq * bodySize
    {
      hide OnFlash; hide Sum; hide XorAll; hide Entered; hide MaxBlocks; hide Flat;
      PagesRead(pageSeq, offs, bodySize, Readable());
      if pageSeq > 0 { FlatLength(pages[..pageSeq - 1], bodySize); }
    }
  }

  lemma {:induction false} PagesRead(n: nat, offs: nat, bodySize: nat, most: nat)
    requires n <= most && offs <= bodySize
    ensures n > 0 ==> (n - 1) * bodySize + offs <= n * bodySize
    ensures n > 0 && offs == bodySize ==> (n - 1) * bodySize + offs == n * bodySize
    ensures 0 <= n * bodySize <= most * bodySize
  {
    Bits.MulMonotone(n, most, bodySize);
    if n > 0 { assert n * bodySize == (n - 1) * bodySize + bodySize; }
  }

  lemma {:induction false} EnteredMore(places: seq<Place>, at: Place)
    ensures Entered(places + [at], |places| + 1) == Entered(places, |places|) + (if at.1 == 0 then 1 else 0)
  {
    EnteredPrefix(places, at, |places|);
  }

  lemma {:induction false} EnteredPrefix(places: seq<Place>, at: Place, g: nat)
    requires g <= |places|
    ensures Entered(places + [at], g) == Entered(places, g)
  {
    if g > 0 { EnteredPrefix(places, at, g - 1); }
  }

  /** The number of bytes in reads of the given sizes. */
  function Total(sizes: seq<nat>): nat {
    if sizes == [] then 0 else Total(sizes[..|sizes| - 1]) + sizes[|sizes| - 1]
  }

  lemma TotalNext(sizes: seq<nat>, i: nat)
    requires 0 < i <= |sizes|
    ensures Total(sizes[..i]) == Total(sizes[..i - 1]) + sizes[i - 1]
  {
    assert sizes[..i][..i - 1] == sizes[..i - 1];
  }

  lemma {:induction false} TotalMonotone(sizes: seq<nat>, i: nat)
    requires i <= |sizes|
    ensures Total(sizes[..i]) <= Total(sizes)
    decreases |sizes| - i
  {
    if i < |sizes| {
      TotalNext(sizes, i + 1);
      TotalMonotone(sizes, i + 1);
    } else {
      assert sizes[..i] == sizes;
    }
  }

  lemma NothingYet(pages: seq<seq<Byte>>, places: seq<Place>)
    requires pages == [] && places == []
    ensures Flat(pages) == [] && Sum([]) == 0 && XorAll([]) == 0 && HdrOf(pages, 0) == Hdr(VERSION, 0, 0, 0) && Entered(places, 0) == 0
  {
  }

  lemma EnteredNone(places: seq<Place>)
    ensures Entered(places, 0) == 0
  {
  }

  lemma NoneRead(sizes: seq<nat>)
    ensures Total(sizes[..0]) == 0
  {
  }

  lemma NoneWritten(writes: seq<seq<Byte>>)
    ensures Flat(writes[..0]) == []
  {
  }

  ghost predicate AnyErased(empty: set<nat>, from: int, end: nat) {
    exists b: nat :: from <= b <= end && b in empty
  }

  lemma MediaPlaces(flash: Flash, pages: seq<seq<Byte>>, places: seq<Place>, per: nat, bodySize: nat, start: nat, end: nat, empty: set<nat>)
    requires MediaOk(flash, pages, places, per, bodySize, start, end, empty)
    ensures |places| == |pages|
  {
  }

  lemma LayoutOf(flash: Flash, pages: seq<seq<Byte>>, places: seq<Place>, per: nat)
    requires OnFlash(flash, pages, places, per)
    ensures Layout(places, per)
  {
  }

  /** The erased blocks between start and end. */
  ghost function ErasedIn(empty: set<nat>, start: nat, end: nat): set<nat> {
    set b | b in empty && start <= b <= end
  }

  lemma OneLess(empty: set<nat>, start: nat, end: nat, b: nat)
    requires b in empty && start <= b <= end
    ensures |ErasedIn(empty - {b}, start, end)| == |ErasedIn(empty, start, end)| - 1
  {
    assert ErasedIn(empty - {b}, start, end) == ErasedIn(empty, start, end) - {b};
  }

  /** The bytes in n pages. */
  function Pages(n: nat, bodySize: nat): nat { n * bodySize }

  lemma {:induction false} PagesNext(n: nat, cap: nat, bodySize: nat)
    requires n <= cap && bodySize > 0
    ensures Pages(n + 1, bodySize) == Pages(n, bodySize) + bodySize <= Pages(cap + 1, bodySize)
    ensures n < cap ==> Pages(n + 1, bodySize) < Pages(cap + 1, bodySize)
  {
    Bits.MulMonotone(n + 1, cap + 1, bodySize);
    if n < cap {
      Bits.MulMonotone(n + 2, cap + 1, bodySize);
      assert (n + 2) * bodySize == (n + 1) * bodySize + bodySize;
    }
    assert (n + 1) * bodySize == n * bodySize + bodySize;
  }

  /** Past the limit more pages are asked for than there are. */
  lemma {:induction false} PagesPast(n: nat, bodySize: nat, cap: nat)
    requires bodySize > 0 && n >= Pages(cap + 1, bodySize)
    ensures PagesFor(n, bodySize) > cap
  {
    PagesForIs(Pages(cap + 1, bodySize), bodySize, cap + 1, 0);
    PagesForMore(Pages(cap + 1, bodySize), n, bodySize);
  }

  function Least(a: nat, b: nat): nat { if a <= b then a else b }

  /** What is on flash is the beginning of the bytes, or all of them and zeros. */
  ghost predicate Shown(flat: seq<Byte>, s: seq<Byte>) {
    forall i | 0 <= i < |flat| :: flat[i] == if i < |s| then s[i] else 0
  }

  lemma PaddedShown(long: seq<Byte>, s: seq<Byte>)
    requires Padded(long, s)
    ensures Shown(long, s)
  {
    forall i | 0 <= i < |s| ensures long[i] == s[i] { assert long[..|s|][i] == long[i]; }
  }

  lemma AsManyPlaces(flash: Flash, pages: seq<seq<Byte>>, places: seq<Place>, per: nat)
    requires OnFlash(flash, pages, places, per)
    ensures |places| == |pages| && forall g | 0 <= g < |places| :: places[g].1 < per
  {
  }

  lemma HdrStays(pages: seq<seq<Byte>>, page: seq<Byte>)
    ensures HdrOf(pages + [page], |pages|) == HdrOf(pages, |pages|)
  {
    assert (pages + [page])[..|pages|] == pages[..|pages|];
  }

  /** s with zeros after it. */
  ghost predicate Padded(long: seq<Byte>, s: seq<Byte>) {
    |s| <= |long| && long[..|s|] == s && forall i | |s| <= i < |long| :: long[i] == 0
  }

  lemma PadTail(a: seq<Byte>, b: seq<Byte>, z: seq<Byte>)
    requires forall i | 0 <= i < |z| :: z[i] == 0
    ensures Padded(a + (b + z), a + b)
  {
    assert a + (b + z) == (a + b) + z;
  }

  lemma FlushedHeader(pages: seq<seq<Byte>>, bytes: seq<Byte>, sum: nat, xor: nat)
    requires bytes == Flat(pages) && sum == Sum(bytes) && xor == XorAll(bytes)
    ensures HdrOf(pages, |pages|) == Hdr(VERSION, |pages|, sum, xor)
  {
    assert pages[..|pages|] == pages;
  }

  lemma {:induction false} NextEntered(flash: Flash, pages: seq<seq<Byte>>, places: seq<Place>, per: nat, g: nat)
    requires OnFlash(flash, pages, places, per) && g < |pages|
    ensures |places| == |pages|
    ensures g == 0 ==> places[0].1 == 0
    ensures g > 0 ==> Follows(places[g - 1], places[g], per)
    ensures Entered(places, g + 1) == Entered(places, g) + (if places[g].1 == 0 then 1 else 0)
    ensures Entered(places, g + 1) <= Entered(places, |places|)
  {
    EnteredMonotone(places, g + 1, |places|);
    NextPlace(places, per, g);
  }

  /** The search for a page that starts a block ends at its block. */
  lemma {:induction false} FirstMarked(flash: Flash, pages: seq<seq<Byte>>, places: seq<Place>, per: nat, start: nat, g: nat)
    requires OnFlash(flash, pages, places, per) && g < |pages| == |places| && places[g].1 == 0
    ensures Marked(flash, places[g].0) && flash[(places[g].0, 0)].objId == places[g].0 + 1
    ensures forall b: nat | SearchFrom(places, g, start) <= b < places[g].0 :: !Marked(flash, b)
  {
    assert places[g] == (places[g].0, 0);
    forall b: nat | SearchFrom(places, g, start) <= b < places[g].0 ensures !Marked(flash, b) {
      NoneBetween(flash, pages, places, per, start, g, b);
    }
  }

  /** After the last page a search finds nothing. */
  lemma {:induction false} LastMarked(flash: Flash, pages: seq<seq<Byte>>, places: seq<Place>, per: nat, start: nat, from: nat)
    requires OnFlash(flash, pages, places, per) && from >= SearchFrom(places, |places|, start)
    ensures forall b: nat | from <= b :: !Marked(flash, b)
  {
    hide OnFlash; hide Marked;
    forall b: nat | from <= b ensures !Marked(flash, b) {
      NoneAfter(flash, pages, places, per, start, b);
    }
  }

  lemma PageThere(flash: Flash, pages: seq<seq<Byte>>, places: seq<Place>, per: nat, g: nat)
    requires OnFlash(flash, pages, places, per) && g < |pages|
    ensures |places| == |pages| && places[g] in flash && flash[places[g]] == PageOf(pages, g, places[g].0) && places[g].1 < per
  {
  }

  /** When page g - 1 has been read to its end, the running sums are those in the header of page g. */
  lemma {:induction false} AllRead(pages: seq<seq<Byte>>, g: nat, body: seq<Byte>, bytes: seq<Byte>)
    requires g < |pages| && if g == 0 then bytes == [] else body == pages[g - 1] && bytes == Flat(pages[..g - 1]) + body
    ensures bytes == Flat(pages[..g]) && HdrOf(pages, g) == Hdr(VERSION, g, Sum(bytes), XorAll(bytes))
  {
    if g > 0 {
      FlatOne(pages[..g - 1], pages[g - 1]);
      assert pages[..g - 1] + [pages[g - 1]] == pages[..g];
    }
  }

  /** What has been read is the beginning of the checkpoint. */
  lemma {:induction false} ReadPrefix(pages: seq<seq<Byte>>, g: nat, offs: nat, bytes: seq<Byte>)
    requires g <= |pages|
    requires if g == 0 then bytes == [] else offs <= |pages[g - 1]| && bytes == Flat(pages[..g - 1]) + pages[g - 1][..offs]
    ensures |bytes| <= |Flat(pages)| && bytes == Flat(pages)[..|bytes|]
  {
    if g > 0 {
      FlatNext(pages, g);
      FlatPrefix(pages, g);
    }
  }

  lemma {:induction false} FlatNext(pages: seq<seq<Byte>>, g: nat)
    requires 0 < g <= |pages|
    ensures Flat(pages[..g]) == Flat(pages[..g - 1]) + pages[g - 1]
  {
    FlatOne(pages[..g - 1], pages[g - 1]);
    assert pages[..g - 1] + [pages[g - 1]] == pages[..g];
  }

  lemma {:induction false} FlatPrefix(pages: seq<seq<Byte>>, g: nat)
    requires g <= |pages|
    ensures |Flat(pages[..g])| <= |Flat(pages)| && Flat(pages)[..|Flat(pages[..g])|] == Flat(pages[..g])
    decreases |pages| - g
  {
    if g < |pages| {
      FlatNext(pages, g + 1);
      FlatPrefix(pages, g + 1);
    } else {
      assert pages[..g] == pages;
    }
  }

  // ----- what a save reports, from the sizes of its portions

  /** The bytes in the first k portions. */
  ghost function Upto(writes: seq<seq<Byte>>, k: nat): nat
    requires k <= |writes|
  {
    |Flat(writes[..k])|
  }

  lemma {:induction false} UptoNext(writes: seq<seq<Byte>>, k: nat)
    requires k < |writes|
    ensures Upto(writes, k + 1) == Upto(writes, k) + |writes[k]|
  {
    FlatNext(writes, k + 1);
  }

  lemma {:induction false} UptoMonotone(writes: seq<seq<Byte>>, i: nat, j: nat)
    requires i <= j <= |writes|
    ensures Upto(writes, i) <= Upto(writes, j)
    decreases j
  {
    if i < j {
      UptoMonotone(writes, i, j - 1);
      UptoNext(writes, j - 1);
    }
  }

  /** Portion k is not cut short: a portion of one byte never is, a longer one if it ends within the limit. */
  ghost predicate Whole(writes: seq<seq<Byte>>, k: nat, limit: nat)
    requires k < |writes|
  {
    |writes[k]| <= 1 || Upto(writes, k + 1) <= limit
  }

  /** No portion is cut short, so every count returned is right. */
  ghost predicate AllWhole(writes: seq<seq<Byte>>, limit: nat) {
    forall k | 0 <= k < |writes| :: Whole(writes, k, limit)
  }

  /** Some portions end exactly at the limit, and more bytes follow. */
  ghost predicate GoesPast(writes: seq<seq<Byte>>, limit: nat) {
    |Flat(writes)| > limit && exists k | 0 <= k <= |writes| :: Upto(writes, k) == limit
  }

  /** With portions of two bytes or more, a save is reported exactly when the bytes are within the limit, and then nothing
      is stored past the page.
   */
  lemma {:induction false} AllWholeIff(writes: seq<seq<Byte>>, limit: nat)
    requires forall k | 0 <= k < |writes| :: |writes[k]| >= 2
    ensures AllWhole(writes, limit) <==> |Flat(writes)| <= limit
  {
    hide Flat;
    var m := |writes|;
    assert writes[..m] == writes;
    assert Upto(writes, m) == |Flat(writes)|;
    if m == 0 {
      NoneWritten(writes);
    } else {
      assert AllWhole(writes, limit) ==> Whole(writes, m - 1, limit);
      if |Flat(writes)| <= limit {
        forall k | 0 <= k < m ensures Whole(writes, k, limit) { UptoMonotone(writes, k + 1, m); }
      }
    }
  }

  /** How far a save came that went through the first k portions, the last of them perhaps cut short. */
  ghost predicate CameTo(writes: seq<seq<Byte>>, k: nat, limit: nat, bytes: nat, ok: bool)
    requires k <= |writes|
  {
    && (forall j | 0 <= j < k && (ok || j < k - 1) :: Whole(writes, j, limit))
    && (if ok then bytes == Upto(writes, k)
        else k > 0 && !Whole(writes, k - 1, limit) && bytes == if Upto(writes, k - 1) >= limit then Upto(writes, k - 1) + 1 else limit)
  }

  lemma {:induction false} CameFurther(writes: seq<seq<Byte>>, k: nat, limit: nat, bytes: nat, n: nat)
    requires k < |writes| && CameTo(writes, k, limit, bytes, true)
    requires n == if |writes[k]| <= 1 || bytes + |writes[k]| <= limit then |writes[k]| else if bytes >= limit then 1 else limit - bytes
    ensures CameTo(writes, k + 1, limit, bytes + n, n == |writes[k]|)
  {
    UptoNext(writes, k);
    hide Upto;
  }

  /** When the save ends it has gone past the limit if and only if its portions say so. */
  lemma {:induction false} WentPastIff(writes: seq<seq<Byte>>, k: nat, limit: nat, bytes: nat, ok: bool)
    requires k <= |writes| && CameTo(writes, k, limit, bytes, ok) && (ok ==> k == |writes|) && limit > 0
    ensures bytes > limit <==> GoesPast(writes, limit)
    ensures ok <==> AllWhole(writes, limit)
    ensures bytes <= |Flat(writes)| && (!ok ==> bytes >= limit)
  {
    hide Flat; hide Upto;
    var m := |writes|;
    WholeLength(writes);
    if ok {
      if bytes > limit {
        Crossing(writes, m, limit);
      }
    } else {
      UptoNext(writes, k - 1);
      UptoMonotone(writes, k, m);
      if Upto(writes, k - 1) >= limit {
        Crossing(writes, k - 1, limit);
      } else {
        forall j | 0 <= j <= m ensures Upto(writes, j) != limit {
          if j < k { UptoMonotone(writes, j, k - 1); } else { UptoMonotone(writes, k, j); }
        }
      }
    }
  }

  lemma WholeLength(writes: seq<seq<Byte>>)
    ensures Upto(writes, |writes|) == |Flat(writes)|
  {
    assert writes[..|writes|] == writes;
  }

  /** Whole portions that pass the limit have an end at it. */
  lemma {:induction false} Crossing(writes: seq<seq<Byte>>, k: nat, limit: nat)
    requires k <= |writes| && Upto(writes, k) >= limit > 0 && forall j | 0 <= j < k :: Whole(writes, j, limit)
    ensures exists j | 0 <= j <= k :: Upto(writes, j) == limit
  {
    hide Flat;
    NoneWritten(writes);
    if Upto(writes, k) > limit {
      UptoNext(writes, k - 1);
      assert Whole(writes, k - 1, limit);
      Crossing(writes, k - 1, limit);
    }
  }

  // ----- saving

  /** yaffs2_wr_checkpt_data: writes of any sizes make one checkpoint, up to the first one cut short; the stream is closed in
      any case. A save is reported exactly when it could be opened and no write is cut short.
   */
  method Save(dev: Stream, writes: seq<seq<Byte>>) returns (begun: bool, saved: bool)
    requires dev.Geometry() && dev.Media() && dev.pages == []
    modifies dev, dev.body
    ensures dev.body == old(dev.body) && (begun <==> dev.blocksAvail > 0)
    ensures var cap := |ErasedIn(old(dev.empty), dev.start, dev.end)| * dev.per;
      && (saved <==> begun && AllWhole(writes, Pages(cap + 1, dev.bodySize)))
      && (begun ==> && dev.Opened() && |dev.pages| == Least(cap, PagesFor(|Flat(writes)|, dev.bodySize))
                     && Shown(Flat(dev.pages), Flat(writes))
                     && (dev.offs > dev.bodySize <==> GoesPast(writes, Pages(cap + 1, dev.bodySize))))
    ensures !begun && old(dev.curBlock) < 0 ==> dev.flash == old(dev.flash) && dev.empty == old(dev.empty)
    ensures !begun && old(dev.curBlock) >= 0 && old(dev.curChunk) >= 0 ==> Marks(dev.flash, old(dev.curBlock), old(dev.curChunk))
  {
    hide OnFlash; hide Flat; hide PagesFor; hide ErasedIn; hide Pages; hide AllWhole; hide GoesPast; hide Stream.Live; hide Shown; hide Stream.Dead;
    ghost var cap := |ErasedIn(dev.empty, dev.start, dev.end)| * dev.per;
    begun := dev.OpenWrite();
    if !begun {
      dev.CloseRefused();
      return false, false;
    }
    saved := WritePortions(dev, writes, cap);
    dev.OffsByLimit();
    ghost var bytes := dev.bytes;
    var closed := dev.CloseWrite();
    saved := saved && closed;
    FlatLength(dev.pages, dev.bodySize);
    EnoughShown(dev.pages, bytes, Flat(writes), cap, dev.bodySize, saved);
  }

  /** The writes of a save, up to the first one cut short. */
  method WritePortions(dev: Stream, writes: seq<seq<Byte>>, ghost cap: nat) returns (saved: bool)
    requires dev.Writing() && dev.bytes == [] && dev.bodySize > 0 && dev.Limit() == Pages(cap + 1, dev.bodySize)
    modifies dev, dev.body
    ensures dev.body == old(dev.body) && (dev.Writing() || dev.Stuck()) && dev.Budget() == old(dev.Budget())
    ensures dev.bytes <= Flat(writes) && (saved ==> dev.bytes == Flat(writes))
    ensures var limit := Pages(cap + 1, dev.bodySize);
      && (saved <==> AllWhole(writes, limit)) && (|dev.bytes| > limit <==> GoesPast(writes, limit)) && (!saved ==> |dev.bytes| >= limit)
  {
    hide OnFlash; hide Flat; hide ErasedIn; hide Pages; hide AllWhole; hide GoesPast; hide CameTo; hide Upto; hide Stream.Writing; hide Stream.Stuck;
    hide Stream.Limit; hide Stream.Budget;
    ghost var limit := Pages(cap + 1, dev.bodySize);
    saved := true;
    StartsAt(writes, limit);
    var i := 0;
    while i < |writes| && saved
      invariant i <= |writes| && dev.body == old(dev.body) && (dev.Writing() || dev.Stuck())
      invariant dev.Budget() == old(dev.Budget()) && dev.Limit() == limit
      invariant CameTo(writes, i, limit, |dev.bytes|, saved) && dev.bytes <= Flat(writes)
      invariant saved ==> dev.bytes == Flat(writes[..i])
      decreases |writes| - i, saved
    {
      ghost var was := dev.bytes;
      var n := dev.Wr(writes[i]);
      PortionDone(writes, i, limit, was, n, dev.bytes);
      saved := n == |writes[i]|;
      i := i + 1;
    }
    LimitPositive(cap, dev.bodySize);
    WentPastIff(writes, i, limit, |dev.bytes|, saved);
    if saved { assert writes[..i] == writes; }
  }

  lemma {:induction false} PortionDone(writes: seq<seq<Byte>>, i: nat, limit: nat, was: seq<Byte>, n: nat, now: seq<Byte>)
    requires i < |writes| && was == Flat(writes[..i]) && CameTo(writes, i, limit, |was|, true) && n <= |writes[i]| && now == was + writes[i][..n]
    requires n == if |writes[i]| <= 1 || |was| + |writes[i]| <= limit then |writes[i]| else if |was| >= limit then 1 else limit - |was|
    ensures CameTo(writes, i + 1, limit, |now|, n == |writes[i]|) && now <= Flat(writes)
    ensures n == |writes[i]| ==> now == Flat(writes[..i + 1])
  {
    hide Flat; hide CameTo;
    FlatNext(writes, i + 1);
    FlatPrefix(writes, i + 1);
    CameFurther(writes, i, limit, |was|, n);
    if n == |writes[i]| { assert writes[i][..n] == writes[i]; }
    StillPrefix(was, writes[i], n, Flat(writes[..i + 1]), Flat(writes));
  }

  /** A checkpoint page at a place. */
  ghost predicate Marks(flash: Flash, b: int, c: int) {
    b >= 0 && c >= 0 && (b as nat, c as nat) in flash && flash[(b as nat, c as nat)].seqNumber == SEQUENCE_CHECKPOINT_DATA
  }

  lemma StartsAt(writes: seq<seq<Byte>>, limit: nat)
    ensures CameTo(writes, 0, limit, 0, true) && Flat(writes[..0]) == []
  {
  }

  lemma LimitPositive(cap: nat, bodySize: nat)
    requires bodySize > 0
    ensures Pages(cap + 1, bodySize) > 0
  {
    Bits.MulMonotone(1, cap + 1, bodySize);
  }

  lemma StillPrefix(was: seq<Byte>, w: seq<Byte>, n: nat, next: seq<Byte>, all: seq<Byte>)
    requires n <= |w| && next == was + w && |next| <= |all| && all[..|next|] == next
    ensures was + w[..n] <= all
  {
    assert was + w[..n] == next[..|was| + n];
    assert next[..|was| + n] == all[..|was| + n];
  }

  /** The pages on flash show what was to be written, even if the last bytes were never accepted. */
  lemma {:induction false} EnoughShown(pages: seq<seq<Byte>>, bytes: seq<Byte>, all: seq<Byte>, cap: nat, bodySize: nat, whole: bool)
    requires bodySize > 0 && |Flat(pages)| == |pages| * bodySize && |pages| == Least(cap, PagesFor(|bytes|, bodySize)) && Shown(Flat(pages), bytes)
    requires bytes <= all && (whole ==> bytes == all) && (!whole ==> |bytes| >= Pages(cap + 1, bodySize))
    ensures |pages| == Least(cap, PagesFor(|all|, bodySize)) && Shown(Flat(pages), all)
  {
    hide Flat; hide PagesFor;
    if !whole {
      PagesPast(|bytes|, bodySize, cap);
      PagesPast(|all|, bodySize, cap);
      PagesNext(cap, cap, bodySize);
      forall i | 0 <= i < |Flat(pages)| ensures i < |bytes| && Flat(pages)[i] == all[i] { }
    }
  }

  /** Reads of any sizes give a prefix of the checkpoint, up to the end of the pages within reach. */
  method Load(dev: Stream, sizes: seq<nat>) returns (ok: bool, got: seq<Byte>)
    requires dev.Geometry() && dev.Media()
    modifies dev, dev.body
    ensures got <= Flat(old(dev.pages)) && dev.start <= dev.end
    ensures ok <==> Total(sizes) <= Least(|old(dev.pages)|, ((dev.end - dev.start) / 16 + 2) * dev.per) * dev.bodySize
    ensures ok ==> |got| == Total(sizes)
  {
    hide OnFlash; hide Sum; hide XorAll; hide Flat; hide Entered; hide HdrOf; hide Total; hide Stream.MaxBlocks;
    dev.MaxBlocksIs();
    got, ok := [], true;
    NoneRead(sizes);
    dev.OpenRead();
    dev.HaveRead();
    var i := 0;
    while i < |sizes|
      invariant i <= |sizes| && dev.body == old(dev.body) && dev.Reading() && dev.pages == old(dev.pages)
      invariant got == dev.bytes && |got| == Total(sizes[..i]) && got <= Flat(dev.pages) && |got| <= old(dev.Readable()) * dev.bodySize
    {
      TotalNext(sizes, i + 1);
      TotalMonotone(sizes, i + 1);
      var data := dev.Rd(sizes[i]);
      got := got + data;
      if |data| != sizes[i] {
        return false, got;
      }
      i := i + 1;
    }
    assert sizes[..i] == sizes;
  }

  /** Writes of any sizes, then reads of any sizes, give the bytes back in order, and zeros after them. What can be read
      are the bytes inside the pages that fit the erased blocks and the blocks a reader will enter, whatever was reported.
   */
  method SaveAndLoad(dev: Stream, writes: seq<seq<Byte>>, sizes: seq<nat>) returns (saved: bool, loaded: bool, got: seq<Byte>)
    requires dev.Geometry() && dev.Media() && dev.pages == []
    modifies dev, dev.body
    ensures var cap := |ErasedIn(old(dev.empty), dev.start, dev.end)| * dev.per;
      && dev.start <= dev.end
      && (saved <==> dev.blocksAvail > 0 && AllWhole(writes, Pages(cap + 1, dev.bodySize)))
      && (loaded <==> dev.blocksAvail > 0 && Total(sizes) <= Readable(cap, |Flat(writes)|, ((dev.end - dev.start) / 16 + 2) * dev.per, dev.bodySize))
      && (dev.blocksAvail > 0 ==> Shown(got, Flat(writes))) && (loaded ==> |got| == Total(sizes))
  {
    hide OnFlash; hide Flat; hide Entered; hide Total; hide PagesFor; hide ErasedIn; hide Stream.MaxBlocks; hide AllWhole; hide GoesPast;
    var begun;
    got, loaded := [], false;
    begun, saved := Save(dev, writes);
    if !begun {
      return;
    }
    ghost var flat := Flat(dev.pages);
    loaded, got := Load(dev, sizes);
    assert forall i | 0 <= i < |got| :: got[i] == flat[i];
  }

  /** The bytes that can be read of a save, when cap pages fit the erased blocks and most pages the blocks a reader enters. */
  ghost function Readable(cap: nat, total: nat, most: nat, bodySize: nat): nat
    requires bodySize > 0
  {
    Pages(Least(Least(cap, PagesFor(total, bodySize)), most), bodySize)
  }

  /** Everything written can be read back if and only if it fits the pages there are and the blocks a reader enters. */
  lemma {:induction false} AllReadableIff(total: nat, cap: nat, most: nat, bodySize: nat)
    requires bodySize > 0
    ensures total <= Readable(cap, total, most, bodySize) <==> total <= Pages(cap, bodySize) && total <= Pages(most, bodySize)
  {
    Division.Remainder(total, bodySize);
    PagesNext(total / bodySize, total / bodySize, bodySize);
    hide PagesFor;
    assert total <= Pages(PagesFor(total, bodySize), bodySize) by { PagesHold(total, bodySize); }
    LeastPages(cap, PagesFor(total, bodySize), bodySize);
    LeastPages(Least(cap, PagesFor(total, bodySize)), most, bodySize);
  }

  lemma {:induction false} PagesHold(total: nat, bodySize: nat)
    requires bodySize > 0
    ensures total <= Pages(PagesFor(total, bodySize), bodySize)
  {
    Division.Remainder(total, bodySize);
    assert (total / bodySize + 1) * bodySize == (total / bodySize) * bodySize + bodySize;
  }

  lemma LeastPages(a: nat, b: nat, bodySize: nat)
    ensures Pages(Least(a, b), bodySize) == Least(Pages(a, bodySize), Pages(b, bodySize))
  {
    if a <= b { Bits.MulMonotone(a, b, bodySize); } else { Bits.MulMonotone(b, a, bodySize); }
  }

  /** A save is reported although bytes are lost with its last page, if and only if the bytes go past the pages that fit and
      no portion is cut short; with portions of two bytes or more, if and only if they go past by at most one page.
   */
  lemma {:induction false} LostUnreportedIff(writes: seq<seq<Byte>>, cap: nat, most: nat, bodySize: nat)
    requires bodySize > 0 && |Flat(writes)| <= Pages(most, bodySize)
    ensures var reported, all := AllWhole(writes, Pages(cap + 1, bodySize)), |Flat(writes)|;
      && (reported && all > Readable(cap, all, most, bodySize) <==> reported && all > Pages(cap, bodySize))
      && ((forall k | 0 <= k < |writes| :: |writes[k]| >= 2) ==>
            (reported && all > Readable(cap, all, most, bodySize) <==> Pages(cap, bodySize) < all <= Pages(cap + 1, bodySize)))
  {
    hide Flat; hide AllWhole; hide Readable; hide Pages;
    AllReadableIff(|Flat(writes)|, cap, most, bodySize);
    if forall k | 0 <= k < |writes| :: |writes[k]| >= 2 { AllWholeIff(writes, Pages(cap + 1, bodySize)); }
  }

  // ----- small devices

  lemma {:induction false} TwoPortions(a: seq<Byte>, b: seq<Byte>)
    ensures var w := [a, b]; Flat(w) == a + b && Upto(w, 0) == 0 && Upto(w, 1) == |a| && Upto(w, 2) == |a| + |b|
  {
    var w := [a, b];
    assert w[..1] == [a] && w[..2] == w && [a][..0] == [];
    assert Flat([a]) == [] + a;
    FlatOne([a], b);
    assert [a] + [b] == w;
  }

  lemma OneSize(n: nat)
    ensures Total([n]) == n
  {
    assert [n][..0] == [];
  }

  /** One erased block of one page of 8 bytes: a save of 8 bytes fills it, and is read back although the last flush fails. */
  method ExactFit() returns (saved: bool, loaded: bool, got: seq<Byte>)
    ensures saved && loaded && got == [1, 2, 3, 4, 5, 6, 7, 8]
  {
    var dev := new Stream(0, 0, 1, 8, 1, {0}, map[]);
    var a: seq<Byte> := [1, 2, 3, 4, 5, 6, 7, 8];
    TwoPortions(a, []);
    OneSize(8);
    assert ErasedIn({0}, 0, 0) == {0};
    assert AllWhole([a, []], Pages(1 * 1 + 1, 8));
    hide Flat; hide ErasedIn;
    saved, loaded, got := SaveAndLoad(dev, [a, []], [8]);
    assert a + [] == a;
  }

  /** On the same device a ninth byte is reported saved and cannot be read back. */
  method LastPageLost() returns (saved: bool, loaded: bool)
    ensures saved && !loaded
  {
    var dev := new Stream(0, 0, 1, 8, 1, {0}, map[]);
    var a: seq<Byte> := [1, 2, 3, 4, 5, 6, 7, 8];
    TwoPortions(a, [9]);
    OneSize(9);
    assert ErasedIn({0}, 0, 0) == {0};
    assert AllWhole([a, [9]], Pages(1 * 1 + 1, 8));
    hide Flat; hide ErasedIn;
    var got;
    saved, loaded, got := SaveAndLoad(dev, [a, [9]], [9]);
  }

  /** On the same device a portion that ends with the second page is followed by a store past the page, and the save is
      reported.
   */
  method StoredPastPage() returns (saved: bool, offs: nat)
    ensures saved && offs > 8
  {
    var dev := new Stream(0, 0, 1, 8, 1, {0}, map[]);
    var a: seq<Byte> := [1, 2, 3, 4, 5, 6, 7, 8, 1, 2, 3, 4, 5, 6, 7, 8];
    TwoPortions(a, [9]);
    assert ErasedIn({0}, 0, 0) == {0};
    assert AllWhole([a, [9]], Pages(1 * 1 + 1, 8));
    assert GoesPast([a, [9]], Pages(1 * 1 + 1, 8));
    hide Flat; hide ErasedIn;
    var begun;
    begun, saved := Save(dev, [a, [9]]);
    offs := dev.offs;
  }

  /** Three erased blocks of one page of one byte: three bytes are saved, but a reader enters only two blocks. */
  method TooLargeToRead() returns (saved: bool, loaded: bool)
    ensures saved && !loaded
  {
    var dev := new Stream(0, 2, 1, 1, 1, {0, 1, 2}, map[]);
    TwoPortions([1, 2], [3]);
    OneSize(3);
    assert ErasedIn({0, 1, 2}, 0, 2) == {0, 1, 2};
    assert AllWhole([[1, 2], [3]], Pages(3 * 1 + 1, 1));
    hide Flat; hide ErasedIn;
    var got;
    saved, loaded, got := SaveAndLoad(dev, [[1, 2], [3]], [3]);
  }

  /** Two erased blocks of one page of 8 bytes: the nine bytes of a save are in both, and a reader enters both. */
  method TwoBlocksRead() returns (saved: bool, loaded: bool, got: seq<Byte>)
    ensures saved && loaded && got == [1, 2, 3, 4, 5, 6, 7, 8, 9]
  {
    var dev := new Stream(0, 1, 1, 8, 2, {0, 1}, map[]);
    var a: seq<Byte> := [1, 2, 3, 4, 5, 6, 7, 8];
    TwoPortions(a, [9]);
    OneSize(9);
    assert ErasedIn({0, 1}, 0, 1) == {0, 1};
    assert AllWhole([a, [9]], Pages(2 * 1 + 1, 8));
    hide Flat; hide ErasedIn;
    saved, loaded, got := SaveAndLoad(dev, [a, [9]], [9]);
    assert a + [9] == [1, 2, 3, 4, 5, 6, 7, 8, 9];
  }

  /** A save that is refused for lack of blocks writes a page where the last stream stopped: here after a reader has taken
      the first of two pages of block 0.
   */
  method RefusedSaveWrites() returns (saved: bool, written: bool)
    ensures !saved && written
  {
    var dev := new Stream(0, 0, 2, 8, 0, {}, map[]);
    dev.curBlock, dev.curChunk, dev.nextBlock := 0, 1, 1;
    var begun;
    begun, saved := Save(dev, []);
    written := (0, 1) in dev.flash;
  }
}
