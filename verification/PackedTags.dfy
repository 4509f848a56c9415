/** yaffs_packedtags2.c: chunk tags packed into four words, protected by the arbitrary-length code. */
module PackedTags {
  import opened EccTables
  import opened EccParity
  import opened EccOther

  datatype EccResult = Unknown | NoError | Fixed | Unfixed

  const TYPE_FILE: bv32 := 1
  const TYPE_HARDLINK: bv32 := 4
  const ERASED: bv32 := 0xffff_ffff

  /** struct yaffs_ext_tags; the C flags are truth values. */
  datatype ExtTags = ExtTags(
    chunkUsed: bool, objId: bv32, chunkId: bv32, nBytes: bv32, eccResult: EccResult, seqNumber: bv32,
    extraAvailable: bool, parentId: bv32, isShrink: bool, shadows: bool, objType: bv32, fileSize: bv64, equivId: bv32)

  /** struct yaffs_packed_tags2_tags_only. */
  datatype Words = Words(seqNumber: bv32, objId: bv32, chunkId: bv32, nBytes: bv32)

  /** struct yaffs_packed_tags2. */
  datatype Stored = Stored(words: Words, ecc: Ecc)

  /** What memset leaves. */
  const BLANK := ExtTags(false, 0, 0, 0, Unknown, 0, false, 0, false, false, 0, 0, 0)

  // ----- byte order

  function Swap(w: bv32): bv32 {
    ((w >> 24) & 0x0000_00ff) | ((w >> 8) & 0x0000_ff00) | ((w << 8) & 0x00ff_0000) | ((w << 24) & 0xff00_0000)
  }

  /** yaffs_do_endian_packed_tags2. */
  function Endian(swap: bool, p: Words): Words {
    if swap then Words(Swap(p.seqNumber), Swap(p.objId), Swap(p.chunkId), Swap(p.nBytes)) else p
  }

  lemma SwapTwice(w: bv32)
    ensures Swap(Swap(w)) == w
    ensures Swap(w) == ERASED <==> w == ERASED
  {
  }

  /** The words as they lie in memory. */
  function Bytes(p: Words): (s: seq<bv8>)
    ensures |s| == 16
  {
    [Byte0(p.seqNumber), Byte1(p.seqNumber), Byte2(p.seqNumber), Byte3(p.seqNumber),
     Byte0(p.objId), Byte1(p.objId), Byte2(p.objId), Byte3(p.objId),
     Byte0(p.chunkId), Byte1(p.chunkId), Byte2(p.chunkId), Byte3(p.chunkId),
     Byte0(p.nBytes), Byte1(p.nBytes), Byte2(p.nBytes), Byte3(p.nBytes)]
  }

  function FromBytes(s: seq<bv8>): Words
    requires |s| == 16
  {
    Words(Word4(s[3], s[2], s[1], s[0]), Word4(s[7], s[6], s[5], s[4]),
          Word4(s[11], s[10], s[9], s[8]), Word4(s[15], s[14], s[13], s[12]))
  }

  lemma Reassemble(w: bv32)
    ensures Word4(Byte3(w), Byte2(w), Byte1(w), Byte0(w)) == w
  {
  }

  lemma {:induction false} FromBytesOfBytes(p: Words)
    ensures FromBytes(Bytes(p)) == p
  {
    hide Word4; hide Byte0; hide Byte1; hide Byte2; hide Byte3;
    Reassemble(p.seqNumber); Reassemble(p.objId); Reassemble(p.chunkId); Reassemble(p.nBytes);
  }

  lemma {:induction false} BytesOfFromBytes(s: seq<bv8>)
    requires |s| == 16
    ensures Bytes(FromBytes(s)) == s
  {
    hide Word4; hide Byte0; hide Byte1; hide Byte2; hide Byte3;
    BytesOfWord4(s[3], s[2], s[1], s[0]); BytesOfWord4(s[7], s[6], s[5], s[4]);
    BytesOfWord4(s[11], s[10], s[9], s[8]); BytesOfWord4(s[15], s[14], s[13], s[12]);
  }

  // ----- packing

  /** yaffs_check_tags_extra_packable. */
  predicate ExtraPackable(t: ExtTags) {
    t.chunkId == 0 && t.extraAvailable && (t.objType == TYPE_FILE ==> t.fileSize >> 31 == 0)
  }

  function ExtraChunkId(parent: bv32, shrink: bool, shadows: bool): bv32 {
    0x8000_0000 | parent | (if shrink then 0x4000_0000 else 0) | (if shadows then 0x2000_0000 else 0)
  }

  function ExtraObjId(objId: bv32, objType: bv32): bv32 {
    (objId & 0x0fff_ffff) | (objType << 28)
  }

  function Cut32(x: bv64): bv32 { (x & 0xffff_ffff) as bv32 }

  function ExtraBytes(t: ExtTags): bv32 {
    if t.objType == TYPE_HARDLINK then t.equivId else if t.objType == TYPE_FILE then Cut32(t.fileSize) else 0
  }

  /** yaffs_pack_tags2_tags_only. */
  function PackWords(swap: bool, t: ExtTags): Words {
    Endian(swap,
           if ExtraPackable(t) then
             Words(t.seqNumber, ExtraObjId(t.objId, t.objType), ExtraChunkId(t.parentId, t.isShrink, t.shadows), ExtraBytes(t))
           else Words(t.seqNumber, t.objId, t.chunkId, t.nBytes))
  }

  // ----- unpacking

  predicate HasExtra(chunkId: bv32) { chunkId & 0x8000_0000 != 0 }

  function Low28(x: bv32): bv32 { x & 0x0fff_ffff }

  function High4(x: bv32): bv32 { x >> 28 }

  predicate ShrinkBit(x: bv32) { x & 0x4000_0000 != 0 }

  predicate ShadowsBit(x: bv32) { x & 0x2000_0000 != 0 }

  function Extend64(x: bv32): bv64 { x as bv64 }

  /** yaffs_unpack_tags2_tags_only. */
  function UnpackWords(swap: bool, stored: Words): ExtTags {
    if stored.seqNumber == ERASED then BLANK
    else
      var p := Endian(swap, stored);
      if HasExtra(p.chunkId) then
        var objType := High4(p.objId);
        ExtTags(true, Low28(p.objId), 0, 0, Unknown, p.seqNumber,
                true, Low28(p.chunkId), ShrinkBit(p.chunkId), ShadowsBit(p.chunkId), objType,
                if objType == TYPE_HARDLINK then 0 else Extend64(p.nBytes), if objType == TYPE_HARDLINK then p.nBytes else 0)
      else
        ExtTags(true, p.objId, p.chunkId, p.nBytes, Unknown, p.seqNumber, false, 0, false, false, 0, 0, 0)
  }

  /** A header of object 0x101 in directory 1: a file of 5000 bytes that shrank, a hard link to 0x102 that shadows another
      object, and a file too large for the extra tags, whose header is packed like data.
   */
  lemma PackedHeaders()
    ensures var h := ExtTags(true, 0x101, 0, 0, Unknown, 0x1000, true, 1, false, false, 0, 0, 0);
      && PackWords(false, h.(objType := 1, fileSize := 5000, isShrink := true)) == Words(0x1000, 0x1000_0101, 0xc000_0001, 5000)
      && PackWords(false, h.(objType := 4, equivId := 0x102, shadows := true)) == Words(0x1000, 0x4000_0101, 0xa000_0001, 0x102)
      && PackWords(true, h.(objType := 4, equivId := 0x102)) == Words(0x0010_0000, 0x0101_0040, 0x0100_0080, 0x0201_0000)
      && PackWords(false, h.(objType := 1, fileSize := 0x8000_0000)) == Words(0x1000, 0x101, 0, 0)
      && UnpackWords(false, Words(0x1000, 0x4000_0101, 0xa000_0001, 0x102)) == h.(objType := 4, equivId := 0x102, shadows := true)
      && UnpackWords(false, Words(0x1000, 0x101, 7, 2048)) == ExtTags(true, 0x101, 7, 2048, Unknown, 0x1000, false, 0, false, false, 0, 0, 0)
  {
  }

  function ResultOf(r: int): EccResult {
    if r == 0 then NoError else if r == 1 then Fixed else if r == -1 then Unfixed else Unknown
  }

  ghost function Pack(swap: bool, t: ExtTags): Stored {
    var p := PackWords(swap, t);
    Stored(p, EccOf(Bytes(p)))
  }

  ghost function Unpack(swap: bool, s: Stored): ExtTags {
    if s.words.seqNumber == ERASED then UnpackWords(swap, s.words).(eccResult := NoError)
    else
      var (r, data, _) := Corrected(Bytes(s.words), s.ecc, EccOf(Bytes(s.words)));
      if |data| == 16 then UnpackWords(swap, FromBytes(data)).(eccResult := ResultOf(r)) else BLANK
  }

  lemma CorrectedLength(data: seq<bv8>, read: Ecc, test: Ecc)
    ensures |Corrected(data, read, test).1| == |data|
  {
    hide Difference; hide Not32; hide EachPairOdd; hide Index; hide BitNumber; hide Weight; hide Weight32; hide Xor8; hide Mask;
  }

  method PackTags2(swap: bool, t: ExtTags, tagsEcc: bool, oldEcc: Ecc) returns (s: Stored)
    ensures tagsEcc ==> s == Pack(swap, t)
    ensures !tagsEcc ==> s == Stored(Pack(swap, t).words, oldEcc)
  {
    hide EccOf; hide PackWords; hide Bytes;
    var p := PackWords(swap, t);
    var ecc := oldEcc;
    if tagsEcc {
      var bytes := Bytes(p);
      var data := new bv8[16](i requires 0 <= i < 16 => bytes[i]);
      assert data[..] == bytes;
      ecc := CalcOther(data);
    }
    s := Stored(p, ecc);
  }

  method UnpackTags2(swap: bool, stored: Stored, tagsEcc: bool) returns (t: ExtTags)
    ensures tagsEcc ==> t == Unpack(swap, stored)
    ensures !tagsEcc ==> t == UnpackWords(swap, stored.words).(eccResult := NoError)
  {
    hide EccOf; hide Corrected; hide UnpackWords; hide Bytes; hide FromBytes;
    var result := NoError;
    var p := stored.words;
    if p.seqNumber != ERASED && tagsEcc {
      var bytes := Bytes(p);
      var data := new bv8[16](i requires 0 <= i < 16 => bytes[i]);
      assert data[..] == bytes;
      var ecc := CalcOther(data);
      CorrectedLength(bytes, stored.ecc, ecc);
      var r, _ := CorrectOther(data, stored.ecc, ecc);
      result := ResultOf(r);
      p := FromBytes(data[..]);
    }
    t := UnpackWords(swap, p).(eccResult := result);
  }

  // ----- round trips

  /** What the file system promises of the tags it writes. */
  predicate Legal(t: ExtTags) {
    && t.objId < 0x1000_0000 && t.chunkId < 0x1000_0000 && t.parentId < 0x1000_0000
    && t.objType <= 5 && 0x1000 <= t.seqNumber <= 0xefff_ff00
  }

  /** What unpacking should return: the tags, with header chunks carrying extra information when it fits. */
  function Recovered(t: ExtTags, e: EccResult): ExtTags {
    if ExtraPackable(t) then
      t.(chunkUsed := true, nBytes := 0, eccResult := e,
         fileSize := if t.objType == TYPE_FILE then t.fileSize else 0,
         equivId := if t.objType == TYPE_HARDLINK then t.equivId else 0)
    else ExtTags(true, t.objId, t.chunkId, t.nBytes, e, t.seqNumber, false, 0, false, false, 0, 0, 0)
  }

  lemma {:induction false} EndianTwice(swap: bool, p: Words)
    ensures Endian(swap, Endian(swap, p)) == p
    ensures Endian(swap, p).seqNumber == ERASED <==> p.seqNumber == ERASED
  {
    hide Swap;
    SwapTwice(p.seqNumber); SwapTwice(p.objId); SwapTwice(p.chunkId); SwapTwice(p.nBytes);
  }

  lemma ExtraChunkIdParts(parent: bv32, shrink: bool, shadows: bool)
    requires parent < 0x1000_0000
    ensures var c := ExtraChunkId(parent, shrink, shadows);
      HasExtra(c) && Low28(c) == parent && ShrinkBit(c) == shrink && ShadowsBit(c) == shadows
  {
  }

  lemma ExtraObjIdParts(objId: bv32, objType: bv32)
    requires objId < 0x1000_0000 && objType <= 5
    ensures Low28(ExtraObjId(objId, objType)) == objId && High4(ExtraObjId(objId, objType)) == objType
  {
  }

  lemma SmallSize(size: bv64)
    requires size >> 31 == 0
    ensures Extend64(Cut32(size)) == size
  {
  }

  lemma ZeroSize()
    ensures Extend64(0) == 0
  {
  }

  lemma PlainChunkId(chunkId: bv32)
    requires chunkId < 0x1000_0000
    ensures !HasExtra(chunkId)
  {
  }

  /** Unpacking the packed words. */
  lemma {:induction false} WordsRoundTrip(swap: bool, t: ExtTags)
    requires Legal(t)
    ensures PackWords(swap, t).seqNumber != ERASED
    ensures UnpackWords(swap, PackWords(swap, t)) == Recovered(t, Unknown)
  {
    hide HasExtra; hide Low28; hide High4; hide ShrinkBit; hide ShadowsBit; hide ExtraChunkId; hide ExtraObjId; hide Extend64; hide Cut32;
    hide Endian;
    var p := if ExtraPackable(t) then
        Words(t.seqNumber, ExtraObjId(t.objId, t.objType), ExtraChunkId(t.parentId, t.isShrink, t.shadows), ExtraBytes(t))
      else Words(t.seqNumber, t.objId, t.chunkId, t.nBytes);
    EndianTwice(swap, p);
    if ExtraPackable(t) {
      ExtraChunkIdParts(t.parentId, t.isShrink, t.shadows);
      ExtraObjIdParts(t.objId, t.objType);
      if t.objType == TYPE_FILE { SmallSize(t.fileSize); }
      ZeroSize();
    } else {
      PlainChunkId(t.chunkId);
    }
  }

  lemma {:induction false} CorrectsNothing(data: seq<bv8>, ecc: Ecc)
    ensures Corrected(data, ecc, ecc) == (0, data, ecc)
  {
    hide Xor8; hide Xor32; hide Not32; hide EachPairOdd; hide Index; hide BitNumber; hide Weight; hide Weight32; hide Flip;
    Xor8Undo(ecc.col, ecc.col); Xor32Zero(ecc.line, ecc.line); Xor32Zero(ecc.prime, ecc.prime);
  }

  /** Undamaged tags come back with no error reported. */
  lemma {:induction false} CleanRoundTrip(swap: bool, t: ExtTags)
    requires Legal(t)
    ensures Unpack(swap, Pack(swap, t)) == Recovered(t, NoError)
  {
    hide Corrected; hide EccOf; hide PackWords; hide UnpackWords; hide Bytes; hide FromBytes;
    WordsRoundTrip(swap, t);
    var p := PackWords(swap, t);
    CorrectsNothing(Bytes(p), EccOf(Bytes(p)));
    FromBytesOfBytes(p);
  }

  /** The stored words with bit b of memory byte k wrong. */
  ghost function DamagedWords(p: Words, k: nat, b: nat): Words
    requires k < 16 && b < 8
  {
    FromBytes(Flip(Bytes(p), k, b))
  }

  /** A damaged tag bit is put right and reported as fixed, except exactly when the damage makes the
      stored sequence number look erased: the check for an erased chunk comes before the correction.
   */
  lemma {:induction false} TagBitFixedIff(swap: bool, t: ExtTags, k: nat, b: nat)
    requires Legal(t) && k < 16 && b < 8
    ensures var s := Pack(swap, t);
            var damaged := s.(words := DamagedWords(s.words, k, b));
            && (Unpack(swap, damaged) == Recovered(t, Fixed) <==> damaged.words.seqNumber != ERASED)
            && (damaged.words.seqNumber == ERASED ==> Unpack(swap, damaged) == BLANK.(eccResult := NoError))
  {
    hide Corrected; hide EccOf; hide PackWords; hide Bytes; hide FromBytes; hide Flip; hide Endian;
    hide HasExtra; hide Low28; hide High4; hide ShrinkBit; hide ShadowsBit; hide Extend64;
    WordsRoundTrip(swap, t);
    var p := PackWords(swap, t);
    var wrong := Flip(Bytes(p), k, b);
    CorrectsDataBit(Bytes(p), k, b);
    BytesOfFromBytes(wrong);
    FromBytesOfBytes(p);
    var damaged := DamagedWords(p, k, b);
    if damaged.seqNumber != ERASED {
      assert Unpack(swap, Stored(damaged, EccOf(Bytes(p)))) == UnpackWords(swap, p).(eccResult := Fixed);
    }
  }

  /** A damaged code bit is reported as fixed and the tags are right. */
  lemma {:induction false} CodeBitFixed(swap: bool, t: ExtTags, ecc: Ecc)
    requires Legal(t) && OneCodeBitOff(ecc, Pack(swap, t).ecc)
    ensures Unpack(swap, Pack(swap, t).(ecc := ecc)) == Recovered(t, Fixed)
  {
    hide Corrected; hide EccOf; hide PackWords; hide UnpackWords; hide Bytes; hide FromBytes; hide OneCodeBitOff;
    WordsRoundTrip(swap, t);
    var p := PackWords(swap, t);
    CorrectsCodeBit(Bytes(p), ecc, EccOf(Bytes(p)));
    FromBytesOfBytes(p);
  }

  /** Two damaged tag bits are reported as not fixed, unless the damage looks erased. */
  lemma {:induction false} TwoTagBitsReported(swap: bool, t: ExtTags, k: nat, b: nat, j: nat, c: nat)
    requires Legal(t) && k < 16 && b < 8 && j < 16 && c < 8 && (k, b) != (j, c)
    ensures var s := Pack(swap, t);
            var damaged := s.(words := DamagedWords(DamagedWords(s.words, k, b), j, c));
            damaged.words.seqNumber != ERASED ==> Unpack(swap, damaged).eccResult == Unfixed
  {
    hide Corrected; hide EccOf; hide PackWords; hide UnpackWords; hide Bytes; hide FromBytes; hide Flip;
    var p := PackWords(swap, t);
    var one := Flip(Bytes(p), k, b);
    DetectsTwoDataBits(Bytes(p), k, b, j, c);
    BytesOfFromBytes(one);
    BytesOfFromBytes(Flip(one, j, c));
  }

  /** A legal data chunk whose tags one flipped bit turns into those of an erased chunk, unreported. */
  lemma {:induction false} OneBitLosesTags()
    ensures var t := ExtTags(true, 0x100, 1, 512, Unknown, 0xdfff_ffff, false, 0, false, false, 0, 0, 0);
            var s := Pack(false, t);
            Legal(t) && Unpack(false, s.(words := DamagedWords(s.words, 3, 5))) == BLANK.(eccResult := NoError)
  {
    hide EccOf; hide Corrected; hide Accumulate;
    var t := ExtTags(true, 0x100, 1, 512, Unknown, 0xdfff_ffff, false, 0, false, false, 0, 0, 0);
    var p := PackWords(false, t);
    assert p.seqNumber == 0xdfff_ffff;
    var s := Flip(Bytes(p), 3, 5);
    assert s[0] == 0xff && s[1] == 0xff && s[2] == 0xff && s[3] == 0xff;
    assert Word4(0xff, 0xff, 0xff, 0xff) == ERASED;
  }
}
