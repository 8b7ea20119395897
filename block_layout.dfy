/**
 * Byte layout of a record block: a HEADER_SIZE-byte header of 4-byte integer fields, the
 * slot map (one byte per slot) right after it, then numSlots fixed-width records of
 * numAttrs * ATTR_SIZE bytes each. Integers are 32-bit two's complement, little-endian
 * (the byte order of the host the engine runs on).
 */
module BlockLayout {
  import opened Defs

  const TWO_31: int := 0x8000_0000
  const TWO_32: int := 0x1_0000_0000

  predicate IsInt32(v: int) {
    -TWO_31 <= v < TWO_31
  }

  predicate IsBlock(block: seq<byte>) {
    |block| == BLOCK_SIZE
  }

  /** The 32-bit integer stored at `off`. */
  function Int32At(bytes: seq<byte>, off: int): (v: int)
    requires 0 <= off && off + 4 <= |bytes|
    ensures IsInt32(v)
  {
    var u := bytes[off] as int + 256 * (bytes[off + 1] as int)
      + 65536 * (bytes[off + 2] as int) + 16777216 * (bytes[off + 3] as int);
    if u >= TWO_31 then u - TWO_32 else u
  }

  /** The four bytes that store `v`. */
  function Int32Bytes(v: int): (r: seq<byte>)
    requires IsInt32(v)
    ensures |r| == 4
  {
    var u := if v < 0 then v + TWO_32 else v;
    [(u % 256) as byte, ((u / 256) % 256) as byte, ((u / 65536) % 256) as byte, (u / 16777216) as byte]
  }

  /** Decoding the bytes of an integer gives the integer back. */
  lemma Int32RoundTrip(v: int)
    requires IsInt32(v)
    ensures Int32At(Int32Bytes(v), 0) == v
  {
    var u := if v < 0 then v + TWO_32 else v;
    var q1 := u / 256;
    var q2 := q1 / 256;
    var q3 := q2 / 256;
    assert u == u % 256 + 256 * q1;
    assert q1 == q1 % 256 + 256 * q2;
    assert q2 == q2 % 256 + 256 * q3;
    assert q2 == u / 65536;
    assert q3 == u / 16777216;
  }

  /** Encoding a stored integer gives back the bytes it was read from. */
  lemma Int32BytesOfStored(bytes: seq<byte>, off: int)
    requires 0 <= off && off + 4 <= |bytes|
    ensures Int32Bytes(Int32At(bytes, off)) == bytes[off .. off + 4]
  {
    var b0, b1, b2, b3 := bytes[off] as int, bytes[off + 1] as int, bytes[off + 2] as int, bytes[off + 3] as int;
    var u := b0 + 256 * (b1 + 256 * (b2 + 256 * b3));
    assert u % 256 == b0 && u / 256 == b1 + 256 * (b2 + 256 * b3);
    var q1 := u / 256;
    assert q1 % 256 == b1 && q1 / 256 == b2 + 256 * b3;
    var q2 := q1 / 256;
    assert q2 % 256 == b2 && q2 / 256 == b3;
    assert u / 65536 == q2;
    assert u / 16777216 == b3;
  }

  /** `block` with `data` written at `off`. */
  function Put(block: seq<byte>, off: int, data: seq<byte>): (r: seq<byte>)
    requires 0 <= off && off + |data| <= |block|
    ensures |r| == |block|
    ensures r[off .. off + |data|] == data
    ensures forall i :: 0 <= i < |block| && !(off <= i < off + |data|) ==> r[i] == block[i]
  {
    block[..off] + data + block[off + |data|..]
  }

  function PutInt32(block: seq<byte>, off: int, v: int): (r: seq<byte>)
    requires 0 <= off && off + 4 <= |block| && IsInt32(v)
    ensures |r| == |block|
  {
    Put(block, off, Int32Bytes(v))
  }

  // Header field offsets.
  const BLOCK_TYPE_AT: int := 0
  const PBLOCK_AT: int := 4
  const LBLOCK_AT: int := 8
  const RBLOCK_AT: int := 12
  const NUM_ENTRIES_AT: int := 16
  const NUM_ATTRS_AT: int := 20
  const NUM_SLOTS_AT: int := 24

  predicate HeaderFits(h: HeadInfo) {
    && IsInt32(h.blockType) && IsInt32(h.pblock) && IsInt32(h.lblock) && IsInt32(h.rblock)
    && IsInt32(h.numEntries) && IsInt32(h.numAttrs) && IsInt32(h.numSlots)
  }

  /**
   * The header as BlockBuffer::getHeader fills it: the five fields lblock, rblock,
   * numEntries, numAttrs and numSlots come from the block, blockType and pblock are
   * whatever the caller's structure held.
   */
  function ReadHeader(head: HeadInfo, block: seq<byte>): (r: HeadInfo)
    requires IsBlock(block)
    ensures HeaderFits(r) <==> IsInt32(head.blockType) && IsInt32(head.pblock)
  {
    head.(
      lblock := Int32At(block, LBLOCK_AT),
      rblock := Int32At(block, RBLOCK_AT),
      numEntries := Int32At(block, NUM_ENTRIES_AT),
      numAttrs := Int32At(block, NUM_ATTRS_AT),
      numSlots := Int32At(block, NUM_SLOTS_AT))
  }

  /** The whole stored header: all seven fields come from the block. */
  function ReadFullHeader(block: seq<byte>): (r: HeadInfo)
    requires IsBlock(block)
    ensures HeaderFits(r)
  {
    ReadHeader(HeadInfo(Int32At(block, BLOCK_TYPE_AT), Int32At(block, PBLOCK_AT), 0, 0, 0, 0, 0), block)
  }

  /** The block with the seven header fields written at their offsets. */
  function WriteHeader(block: seq<byte>, h: HeadInfo): (r: seq<byte>)
    requires IsBlock(block) && HeaderFits(h)
    ensures IsBlock(r)
  {
    var b0 := PutInt32(block, BLOCK_TYPE_AT, h.blockType);
    var b1 := PutInt32(b0, PBLOCK_AT, h.pblock);
    var b2 := PutInt32(b1, LBLOCK_AT, h.lblock);
    var b3 := PutInt32(b2, RBLOCK_AT, h.rblock);
    var b4 := PutInt32(b3, NUM_ENTRIES_AT, h.numEntries);
    var b5 := PutInt32(b4, NUM_ATTRS_AT, h.numAttrs);
    PutInt32(b5, NUM_SLOTS_AT, h.numSlots)
  }

  /** Writing a header writes nothing at or after byte 28. */
  lemma WriteHeaderFrame(block: seq<byte>, h: HeadInfo)
    requires IsBlock(block) && HeaderFits(h)
    ensures WriteHeader(block, h)[28..] == block[28..]
  {
    var w := WriteHeader(block, h);
    assert forall i :: 28 <= i < BLOCK_SIZE ==> w[i] == block[i];
  }

  /** The bytes 4*k .. 4*k+3 of a written header hold field k. */
  lemma WriteHeaderFields(block: seq<byte>, h: HeadInfo)
    requires IsBlock(block) && HeaderFits(h)
    ensures var w := WriteHeader(block, h);
      && w[BLOCK_TYPE_AT .. BLOCK_TYPE_AT + 4] == Int32Bytes(h.blockType)
      && w[PBLOCK_AT .. PBLOCK_AT + 4] == Int32Bytes(h.pblock)
      && w[LBLOCK_AT .. LBLOCK_AT + 4] == Int32Bytes(h.lblock)
      && w[RBLOCK_AT .. RBLOCK_AT + 4] == Int32Bytes(h.rblock)
      && w[NUM_ENTRIES_AT .. NUM_ENTRIES_AT + 4] == Int32Bytes(h.numEntries)
      && w[NUM_ATTRS_AT .. NUM_ATTRS_AT + 4] == Int32Bytes(h.numAttrs)
      && w[NUM_SLOTS_AT .. NUM_SLOTS_AT + 4] == Int32Bytes(h.numSlots)
  {
    var b0 := PutInt32(block, BLOCK_TYPE_AT, h.blockType);
    var b1 := PutInt32(b0, PBLOCK_AT, h.pblock);
    var b2 := PutInt32(b1, LBLOCK_AT, h.lblock);
    var b3 := PutInt32(b2, RBLOCK_AT, h.rblock);
    var b4 := PutInt32(b3, NUM_ENTRIES_AT, h.numEntries);
    var b5 := PutInt32(b4, NUM_ATTRS_AT, h.numAttrs);
    var w := PutInt32(b5, NUM_SLOTS_AT, h.numSlots);
    assert w[0..4] == b5[0..4] == b4[0..4] == b3[0..4] == b2[0..4] == b1[0..4] == b0[0..4];
    assert w[4..8] == b5[4..8] == b4[4..8] == b3[4..8] == b2[4..8] == b1[4..8];
    assert w[8..12] == b5[8..12] == b4[8..12] == b3[8..12] == b2[8..12];
    assert w[12..16] == b5[12..16] == b4[12..16] == b3[12..16];
    assert w[16..20] == b5[16..20] == b4[16..20];
    assert w[20..24] == b5[20..24];
  }

  /** Reading back a written header gives every field that was written. */
  lemma HeaderRoundTrip(block: seq<byte>, h: HeadInfo)
    requires IsBlock(block) && HeaderFits(h)
    ensures ReadFullHeader(WriteHeader(block, h)) == h
  {
    var w := WriteHeader(block, h);
    WriteHeaderFields(block, h);
    Int32AtSlice(w, BLOCK_TYPE_AT, h.blockType);
    Int32AtSlice(w, PBLOCK_AT, h.pblock);
    Int32AtSlice(w, LBLOCK_AT, h.lblock);
    Int32AtSlice(w, RBLOCK_AT, h.rblock);
    Int32AtSlice(w, NUM_ENTRIES_AT, h.numEntries);
    Int32AtSlice(w, NUM_ATTRS_AT, h.numAttrs);
    Int32AtSlice(w, NUM_SLOTS_AT, h.numSlots);
  }

  lemma Int32AtSlice(bytes: seq<byte>, off: int, v: int)
    requires 0 <= off && off + 4 <= |bytes| && IsInt32(v)
    requires bytes[off .. off + 4] == Int32Bytes(v)
    ensures Int32At(bytes, off) == v
  {
    Int32RoundTrip(v);
    var e := Int32Bytes(v);
    assert bytes[off] == e[0] && bytes[off + 1] == e[1] && bytes[off + 2] == e[2] && bytes[off + 3] == e[3];
  }

  /**
   * Writing back a header read in full leaves the block as it was: the read-modify-write
   * pattern of the block-access layer is harmless when every field is read.
   */
  lemma FullHeaderWriteBack(block: seq<byte>)
    requires IsBlock(block)
    ensures WriteHeader(block, ReadFullHeader(block)) == block
  {
    var w := WriteHeader(block, ReadFullHeader(block));
    HeaderWordsKept(block);
    forall k | 0 <= k < 7
      ensures w[4 * k .. 4 * k + 4] == block[4 * k .. 4 * k + 4]
    {
      if k == 0 {} else if k == 1 {} else if k == 2 {} else if k == 3 {} else if k == 4 {} else if k == 5 {} else {}
    }
    WriteHeaderFrame(block, ReadFullHeader(block));
    WordsEqual(w, block, 7);
    assert w == w[..28] + w[28..];
    assert block == block[..28] + block[28..];
  }

  /** Each of the seven header words of a block is written back as it was read. */
  lemma HeaderWordsKept(block: seq<byte>)
    requires IsBlock(block)
    ensures var w := WriteHeader(block, ReadFullHeader(block));
      && w[0..4] == block[0..4] && w[4..8] == block[4..8] && w[8..12] == block[8..12]
      && w[12..16] == block[12..16] && w[16..20] == block[16..20] && w[20..24] == block[20..24]
      && w[24..28] == block[24..28]
  {
    var h := ReadFullHeader(block);
    var w := WriteHeader(block, h);
    WriteHeaderFields(block, h);
    WordKept(block, w, BLOCK_TYPE_AT);
    WordKept(block, w, PBLOCK_AT);
    WordKept(block, w, LBLOCK_AT);
    WordKept(block, w, RBLOCK_AT);
    WordKept(block, w, NUM_ENTRIES_AT);
    WordKept(block, w, NUM_ATTRS_AT);
    WordKept(block, w, NUM_SLOTS_AT);
  }

  /** A word holding the encoding of the integer read at the same offset of block holds block's bytes there. */
  lemma WordKept(block: seq<byte>, w: seq<byte>, off: int)
    requires 0 <= off && off + 4 <= |block| && off + 4 <= |w|
    requires w[off .. off + 4] == Int32Bytes(Int32At(block, off))
    ensures w[off .. off + 4] == block[off .. off + 4]
  {
    Int32BytesOfStored(block, off);
  }

  /** Two byte strings that agree word by word on their first n words agree on 4*n bytes. */
  lemma {:induction false} WordsEqual(a: seq<byte>, b: seq<byte>, n: nat)
    requires 4 * n <= |a| && 4 * n <= |b|
    requires forall k :: 0 <= k < n ==> a[4 * k .. 4 * k + 4] == b[4 * k .. 4 * k + 4]
    ensures a[..4 * n] == b[..4 * n]
  {
    if n > 0 {
      WordsEqual(a, b, n - 1);
      assert a[..4 * n] == a[..4 * (n - 1)] + a[4 * (n - 1) .. 4 * n];
      assert b[..4 * n] == b[..4 * (n - 1)] + b[4 * (n - 1) .. 4 * n];
    }
  }

  /**
   * As written, a header obtained through getHeader keeps the caller's blockType, so a
   * getHeader / setHeader pair stores whatever the caller's uninitialised structure held.
   */
  lemma PartialHeaderWriteBack(block: seq<byte>, junk: HeadInfo)
    requires IsBlock(block) && IsInt32(junk.blockType) && IsInt32(junk.pblock)
    requires junk.blockType != Int32At(block, BLOCK_TYPE_AT)
    ensures WriteHeader(block, ReadHeader(junk, block)) != block
  {
    var h := ReadHeader(junk, block);
    var w := WriteHeader(block, h);
    WriteHeaderFields(block, h);
    Int32AtSlice(w, BLOCK_TYPE_AT, junk.blockType);
  }

  /** Byte offset of record `slot` in a block with `numSlots` slots of `numAttrs` attributes. */
  function RecordOffset(numSlots: int, numAttrs: int, slot: int): int {
    HEADER_SIZE + numSlots + numAttrs * ATTR_SIZE * slot
  }

  function RecordSize(numAttrs: int): int {
    numAttrs * ATTR_SIZE
  }

  /** Record `slot` lies wholly inside the block. */
  predicate RecordFits(numSlots: int, numAttrs: int, slot: int) {
    && 0 <= numSlots && 0 <= numAttrs && 0 <= slot
    && HEADER_SIZE + numSlots <= RecordOffset(numSlots, numAttrs, slot)
    && RecordOffset(numSlots, numAttrs, slot) + RecordSize(numAttrs) <= BLOCK_SIZE
  }

  /** The bytes of record `slot`, as RecBuffer::getRecord copies them. */
  function RecordBytes(block: seq<byte>, numSlots: int, numAttrs: int, slot: int): (r: seq<byte>)
    requires IsBlock(block) && RecordFits(numSlots, numAttrs, slot)
    ensures |r| == RecordSize(numAttrs)
  {
    var off := RecordOffset(numSlots, numAttrs, slot);
    block[off .. off + RecordSize(numAttrs)]
  }

  /** The block with record `slot` replaced, as RecBuffer::setRecord writes it. */
  function WriteRecord(block: seq<byte>, numSlots: int, numAttrs: int, slot: int, rec: seq<byte>): (r: seq<byte>)
    requires IsBlock(block) && RecordFits(numSlots, numAttrs, slot) && |rec| == RecordSize(numAttrs)
    ensures IsBlock(r)
  {
    Put(block, RecordOffset(numSlots, numAttrs, slot), rec)
  }

  /** The slot map: `numSlots` bytes from HEADER_SIZE on. */
  function SlotMapBytes(block: seq<byte>, numSlots: int): (r: seq<byte>)
    requires IsBlock(block) && 0 <= numSlots && HEADER_SIZE + numSlots <= BLOCK_SIZE
    ensures |r| == numSlots
  {
    block[HEADER_SIZE .. HEADER_SIZE + numSlots]
  }

  lemma MulMono(a: int, b: int, c: int)
    requires 0 <= a && b <= c
    ensures a * b <= a * c
  {
  }

  /** A record written at one slot is read back at that slot. */
  lemma RecordRoundTrip(block: seq<byte>, numSlots: int, numAttrs: int, slot: int, rec: seq<byte>)
    requires IsBlock(block) && RecordFits(numSlots, numAttrs, slot) && |rec| == RecordSize(numAttrs)
    ensures RecordBytes(WriteRecord(block, numSlots, numAttrs, slot, rec), numSlots, numAttrs, slot) == rec
  {
  }

  /** Two different slots of one block hold records that do not overlap. */
  lemma RecordsApart(numSlots: int, numAttrs: int, slot: int, other: int)
    requires RecordFits(numSlots, numAttrs, slot) && RecordFits(numSlots, numAttrs, other) && other != slot
    ensures var size := RecordSize(numAttrs);
      || RecordOffset(numSlots, numAttrs, other) + size <= RecordOffset(numSlots, numAttrs, slot)
      || RecordOffset(numSlots, numAttrs, slot) + size <= RecordOffset(numSlots, numAttrs, other)
  {
    var size := RecordSize(numAttrs);
    assert numAttrs * ATTR_SIZE * slot == size * slot;
    assert numAttrs * ATTR_SIZE * other == size * other;
    if other < slot {
      MulMono(size, other + 1, slot);
    } else {
      MulMono(size, slot + 1, other);
    }
  }

  /** Bytes [lo, hi) outside the range a Put writes are kept. */
  lemma PutKeeps(block: seq<byte>, off: int, data: seq<byte>, lo: int, hi: int)
    requires 0 <= off && off + |data| <= |block| && 0 <= lo <= hi <= |block|
    requires hi <= off || off + |data| <= lo
    ensures Put(block, off, data)[lo..hi] == block[lo..hi]
  {
    var w := Put(block, off, data);
    assert forall i :: lo <= i < hi ==> w[i] == block[i];
  }

  /**
   * Writing one record leaves the header, the slot map and every other record as they were.
   */
  lemma WriteRecordFrame(block: seq<byte>, numSlots: int, numAttrs: int, slot: int, rec: seq<byte>, other: int)
    requires IsBlock(block) && RecordFits(numSlots, numAttrs, slot) && |rec| == RecordSize(numAttrs)
    requires RecordFits(numSlots, numAttrs, other) && other != slot
    ensures var w := WriteRecord(block, numSlots, numAttrs, slot, rec);
      && w[..HEADER_SIZE + numSlots] == block[..HEADER_SIZE + numSlots]
      && RecordBytes(w, numSlots, numAttrs, other) == RecordBytes(block, numSlots, numAttrs, other)
  {
    var off := RecordOffset(numSlots, numAttrs, slot);
    var off' := RecordOffset(numSlots, numAttrs, other);
    RecordsApart(numSlots, numAttrs, slot, other);
    PutKeeps(block, off, rec, 0, HEADER_SIZE + numSlots);
    PutKeeps(block, off, rec, off', off' + RecordSize(numAttrs));
  }

  /** The number of slots a block gives a relation with `numAttrs` attributes. */
  function SlotsPerBlock(numAttrs: int): int
    requires numAttrs > 0
  {
    (BLOCK_SIZE - HEADER_SIZE) / (numAttrs * ATTR_SIZE + 1)
  }

  /** Every slot below SlotsPerBlock holds a record that fits in the block. */
  lemma SlotsFit(numAttrs: int, slot: int)
    requires numAttrs > 0 && 0 <= slot < SlotsPerBlock(numAttrs)
    ensures RecordFits(SlotsPerBlock(numAttrs), numAttrs, slot)
  {
    var n := SlotsPerBlock(numAttrs);
    var size := RecordSize(numAttrs);
    assert n * (size + 1) <= BLOCK_SIZE - HEADER_SIZE;
    MulMono(size, slot + 1, n);
    assert size * (slot + 1) <= size * n;
    assert numAttrs * ATTR_SIZE * slot == size * slot;
    assert size * slot >= 0 by { MulMono(size, 0, slot); }
  }

  /**
   * The bytes linearSearch copies on one pass of its loop: the record at `slot`, read before
   * the check of `slot` against numSlots, so `slot` may equal numSlots here.
   * Returns the first byte and one past the last byte of that range.
   */
  function LinearSearchReadRange(numSlots: int, numAttrs: int, slot: int): (r: (int, int))
    ensures r.1 - r.0 == RecordSize(numAttrs)
  {
    var off := RecordOffset(numSlots, numAttrs, slot);
    (off, off + RecordSize(numAttrs))
  }

  /**
   * In a catalog block (six attributes, twenty slots) the pass with slot == numSlots reads
   * twenty bytes beyond the end of the 2048-byte block.
   */
  lemma LinearSearchReadsPastBlock()
    ensures SlotsPerBlock(RELCAT_NO_ATTRS) == 20
    ensures LinearSearchReadRange(20, RELCAT_NO_ATTRS, 20) == (1972, 2068)
    ensures LinearSearchReadRange(20, RELCAT_NO_ATTRS, 20).1 > BLOCK_SIZE
  {
  }
}
