/**
 * Access to one disk block through the buffer pool: a RecBuffer names a block, brings it
 * into a frame before every access (refreshing the timestamps), and reads or writes the
 * header, the slot map and records at the offsets of BlockLayout. Also the three-valued
 * attribute comparison used by searches.
 */
module BlockBuffer {
  import opened Defs
  import opened StaticBuffer
  import opened BlockLayout

  /** The frame loadBlockAndGetBufferPtr hands out for block b. */
  function LoadFrame(p: Pool, b: int): (f: int)
    requires PoolValid(p) && 0 <= b < DISK_BLOCKS
    ensures 0 <= f < BUFFER_CAPACITY
  {
    var r := FindFrame(p.meta, b);
    if r >= 0 then r else Chosen(Aged(p.meta))
  }

  /** On a hit every occupied frame ages and the hit frame's timestamp becomes 0. */
  function AfterHit(p: Pool, f: int): (q: Pool)
    requires PoolValid(p) && 0 <= f < BUFFER_CAPACITY
    ensures PoolValid(q) && q.frames == p.frames && q.image == p.image
    ensures forall i :: 0 <= i < BUFFER_CAPACITY ==>
      q.meta[i].blockNum == p.meta[i].blockNum && q.meta[i].free == p.meta[i].free && q.meta[i].dirty == p.meta[i].dirty
    ensures q.meta[f].timeStamp == 0
    ensures forall i :: 0 <= i < BUFFER_CAPACITY && i != f ==>
      q.meta[i].timeStamp == if p.meta[i].free then p.meta[i].timeStamp else p.meta[i].timeStamp + 1
  {
    var a := Aged(p.meta);
    AgedKeepsBlocks(p.meta);
    Pool(a[f := a[f].(timeStamp := 0)], p.frames, p.image)
  }

  /**
   * On a miss getFreeBuffer picks a frame, writing back a dirty victim, and the block is
   * read into it from the disk.
   */
  function AfterMiss(p: Pool, b: int): (q: Pool)
    requires PoolValid(p) && 0 <= b < DISK_BLOCKS
    ensures PoolValid(q)
    ensures q.meta[Chosen(Aged(p.meta))].blockNum == b
  {
    var a := Aged(p.meta);
    var v := Chosen(a);
    MissValid(p, b);
    Pool(a[v := BufferMetaInfo(false, false, 0, b)], p.frames[v := p.image[b]], Evicted(p.image, a, p.frames, v))
  }

  /** The pool AfterMiss builds is well formed. */
  lemma MissValid(p: Pool, b: int)
    requires PoolValid(p) && 0 <= b < DISK_BLOCKS
    ensures var a := Aged(p.meta);
      var v := Chosen(a);
      && MetaOk(a) && |a| == BUFFER_CAPACITY
      && PoolValid(Pool(a[v := BufferMetaInfo(false, false, 0, b)], p.frames[v := p.image[b]], Evicted(p.image, a, p.frames, v)))
  {
    var a := Aged(p.meta);
    AgedKeepsBlocks(p.meta);
    var v := Chosen(a);
    ReplaceKeepsMeta(a, v, BufferMetaInfo(false, false, 0, b));
    var fr := p.frames[v := p.image[b]];
    forall i | 0 <= i < BUFFER_CAPACITY ensures |fr[i]| == BLOCK_SIZE {
      if i != v {
        assert fr[i] == p.frames[i];
      }
    }
  }

  /** Putting a well-formed entry into one frame keeps every frame well formed. */
  lemma ReplaceKeepsMeta(m: seq<BufferMetaInfo>, v: int, e: BufferMetaInfo)
    requires MetaOk(m) && 0 <= v < |m| && FrameOk(e)
    ensures MetaOk(m[v := e])
  {
    var m' := m[v := e];
    forall i | 0 <= i < |m'| ensures FrameOk(m'[i]) {
      if i != v {
        assert m'[i] == m[i];
      }
    }
  }

  /** The pool after loadBlockAndGetBufferPtr for block b. */
  function AfterLoad(p: Pool, b: int): (q: Pool)
    requires PoolValid(p) && 0 <= b < DISK_BLOCKS
    ensures PoolValid(q)
    ensures FindFrame(q.meta, b) >= 0
    ensures !q.meta[LoadFrame(p, b)].free && q.meta[LoadFrame(p, b)].blockNum == b
    ensures q.meta[LoadFrame(p, b)].timeStamp == 0
    ensures FindFrame(p.meta, b) >= 0 ==> q.frames == p.frames && q.image == p.image
    ensures FindFrame(p.meta, b) < 0 ==> q.frames[LoadFrame(p, b)] == p.image[b]
  {
    var f := FindFrame(p.meta, b);
    if f >= 0 then
      var q := AfterHit(p, f);
      assert q.meta[f].blockNum == b;
      q
    else
      AfterMiss(p, b)
  }

  /** The pool after frame contents `data` were stored for resident block b and marked dirty. */
  function AfterWrite(p: Pool, b: int, data: seq<byte>): (q: Pool)
    requires PoolValid(p) && 0 <= b < DISK_BLOCKS && FindFrame(p.meta, b) >= 0 && |data| == BLOCK_SIZE
    ensures PoolValid(q)
  {
    var f := FindFrame(p.meta, b);
    Pool(p.meta[f := p.meta[f].(dirty := true)], p.frames[f := data], p.image)
  }

  lemma AgedKeepsBlocks(m: seq<BufferMetaInfo>)
    ensures |Aged(m)| == |m|
    ensures forall i :: 0 <= i < |m| ==>
      Aged(m)[i].blockNum == m[i].blockNum && Aged(m)[i].free == m[i].free && Aged(m)[i].dirty == m[i].dirty
    ensures MetaOk(m) ==> MetaOk(Aged(m))
  {
  }

  /** Changing only timestamps does not move any block to another frame. */
  lemma {:induction false} FindFrameIgnoresTimes(m: seq<BufferMetaInfo>, m': seq<BufferMetaInfo>, b: int, from: nat)
    requires from <= |m| == |m'| && forall i :: 0 <= i < |m| ==> m'[i].blockNum == m[i].blockNum
    ensures FindFrameFrom(m', b, from) == FindFrameFrom(m, b, from)
    decreases |m| - from
  {
    if from < |m| {
      FindFrameIgnoresTimes(m, m', b, from + 1);
    }
  }

  /** In a pool with no duplicate blocks, the occupied frame holding b is the one FindFrame finds. */
  lemma {:induction false} FindFrameHolder(m: seq<BufferMetaInfo>, b: int, j: int, from: nat)
    requires Distinct(m) && from <= j < |m| && !m[j].free && m[j].blockNum == b
    ensures FindFrameFrom(m, b, from) == j
    decreases j - from
  {
    if from < j {
      assert m[j].blockNum != m[from].blockNum;
      FindFrameHolder(m, b, j, from + 1);
    }
  }

  /** A block no frame holds is not found. */
  lemma {:induction false} FindFrameAbsent(m: seq<BufferMetaInfo>, b: int, from: nat)
    requires from <= |m| && forall i :: 0 <= i < |m| ==> m[i].blockNum != b
    ensures FindFrameFrom(m, b, from) == -1
    decreases |m| - from
  {
    if from < |m| {
      FindFrameAbsent(m, b, from + 1);
    }
  }

  /** A hit keeps the pool sound and every block's content. */
  lemma LoadHitKeepsContent(p: Pool, b: int)
    requires PoolSound(p) && 0 <= b < DISK_BLOCKS && FindFrame(p.meta, b) >= 0
    ensures var q := AfterLoad(p, b);
      && PoolSound(q)
      && (forall b' :: 0 <= b' < DISK_BLOCKS ==> LogicalOf(q, b') == LogicalOf(p, b'))
  {
    var q := AfterLoad(p, b);
    AgedKeepsBlocks(p.meta);
    forall b' | 0 <= b' < DISK_BLOCKS
      ensures LogicalOf(q, b') == LogicalOf(p, b')
    {
      FindFrameIgnoresTimes(p.meta, q.meta, b', 0);
    }
  }

  /** On a miss the chosen frame is free or holds a block other than b. */
  lemma MissVictim(p: Pool, b: int)
    requires PoolSound(p) && 0 <= b < DISK_BLOCKS && FindFrame(p.meta, b) == -1
    ensures var a := Aged(p.meta); var v := Chosen(a);
      && (FirstFree(a) != -1 ==> p.meta[v].free)
      && (FirstFree(a) == -1 ==> !p.meta[v].free)
      && p.meta[v].blockNum != b
      && AfterLoad(p, b).meta == a[v := BufferMetaInfo(false, false, 0, b)]
      && AfterLoad(p, b).image[b] == p.image[b]
  {
    AgedKeepsBlocks(p.meta);
  }

  /** A miss keeps the metadata well formed and free of duplicate blocks. */
  lemma MissKeepsDistinct(p: Pool, b: int)
    requires PoolSound(p) && 0 <= b < DISK_BLOCKS && FindFrame(p.meta, b) == -1
    ensures MetaOk(AfterLoad(p, b).meta) && Distinct(AfterLoad(p, b).meta)
  {
    var m := p.meta;
    AgedKeepsBlocks(m);
    MissVictim(p, b);
    var v := Chosen(Aged(m));
    var q := AfterLoad(p, b).meta;
    forall i, j | 0 <= i < |q| && 0 <= j < |q| && i != j && !q[i].free
      ensures q[i].blockNum != q[j].blockNum
    {
      if i == v {
        assert q[j].blockNum == m[j].blockNum;
      } else if j == v {
        assert q[i].blockNum == m[i].blockNum;
      } else {
        assert q[i].blockNum == m[i].blockNum && q[j].blockNum == m[j].blockNum;
      }
    }
  }

  /** After a miss every clean frame still mirrors the disk. */
  lemma MissKeepsCoherent(p: Pool, b: int)
    requires PoolSound(p) && 0 <= b < DISK_BLOCKS && FindFrame(p.meta, b) == -1
    ensures var q := AfterLoad(p, b); CoherentWith(q.meta, q.frames, q.image)
  {
    var m := p.meta;
    AgedKeepsBlocks(m);
    MissVictim(p, b);
    var a := Aged(m);
    var v := Chosen(a);
    var q := AfterLoad(p, b);
    forall i | 0 <= i < |q.meta| && i < |q.frames| && !q.meta[i].free && !q.meta[i].dirty && 0 <= q.meta[i].blockNum < |q.image|
      ensures q.frames[i] == q.image[q.meta[i].blockNum]
    {
      if i != v {
        assert q.meta[i] == a[i];
        var bi := m[i].blockNum;
        assert FirstFree(a) == -1 && a[v].dirty ==> m[v].blockNum != bi;
        assert q.image[bi] == p.image[bi];
      }
    }
  }

  /** A miss keeps the pool sound and every block's content, and puts b's content in its frame. */
  lemma LoadMissKeepsContent(p: Pool, b: int)
    requires PoolSound(p) && 0 <= b < DISK_BLOCKS && FindFrame(p.meta, b) == -1
    ensures var q := AfterLoad(p, b);
      && PoolSound(q)
      && q.image[b] == p.image[b]
      && (forall b' :: 0 <= b' < DISK_BLOCKS ==> LogicalOf(q, b') == LogicalOf(p, b'))
  {
    var m := p.meta;
    var a := Aged(m);
    AgedKeepsBlocks(m);
    var v := Chosen(a);
    var q := AfterLoad(p, b);
    MissVictim(p, b);
    MissKeepsDistinct(p, b);
    MissKeepsCoherent(p, b);
    forall b' | 0 <= b' < DISK_BLOCKS
      ensures LogicalOf(q, b') == LogicalOf(p, b')
    {
      FindFrameHolder(q.meta, b, v, 0);
      if b' != b {
        var f := FindFrame(m, b');
        if f >= 0 && f != v {
          FindFrameHolder(q.meta, b', f, 0);
        } else {
          forall r | 0 <= r < |q.meta|
            ensures q.meta[r].blockNum != b'
          {
            if r != v {
              assert q.meta[r].blockNum == m[r].blockNum;
              if f == v {
                assert m[v].blockNum != m[r].blockNum;
              }
            }
          }
          FindFrameAbsent(q.meta, b', 0);
          assert f == v ==> !m[v].dirty ==> p.frames[v] == p.image[b'];
        }
      }
    }
  }

  /** Whatever happens, the loaded frame holds block b with b's content. */
  lemma LoadKeepsContent(p: Pool, b: int)
    requires PoolSound(p) && 0 <= b < DISK_BLOCKS
    ensures var q := AfterLoad(p, b);
      var f := LoadFrame(p, b);
      && PoolSound(q)
      && !q.meta[f].free && q.meta[f].blockNum == b
      && FindFrame(q.meta, b) == f
      && q.frames[f] == LogicalOf(p, b)
      && (forall b' :: 0 <= b' < DISK_BLOCKS ==> LogicalOf(q, b') == LogicalOf(p, b'))
  {
    var q := AfterLoad(p, b);
    var f := LoadFrame(p, b);
    if FindFrame(p.meta, b) >= 0 {
      LoadHitKeepsContent(p, b);
    } else {
      LoadMissKeepsContent(p, b);
    }
    FindFrameHolder(q.meta, b, f, 0);
  }

  /** Storing new content for a resident block changes that block's content and no other. */
  lemma WriteKeepsOthers(p: Pool, b: int, data: seq<byte>)
    requires PoolSound(p) && 0 <= b < DISK_BLOCKS && FindFrame(p.meta, b) >= 0 && |data| == BLOCK_SIZE
    ensures var q := AfterWrite(p, b, data);
      && PoolSound(q)
      && LogicalOf(q, b) == data
      && (forall b' :: 0 <= b' < DISK_BLOCKS && b' != b ==> LogicalOf(q, b') == LogicalOf(p, b'))
  {
    var q := AfterWrite(p, b, data);
    forall b' | 0 <= b' < DISK_BLOCKS
      ensures FindFrame(q.meta, b') == FindFrame(p.meta, b')
    {
      FindFrameIgnoresTimes(p.meta, q.meta, b', 0);
    }
  }

  class RecBuffer {
    const blockNum: int
    const pool: StaticBuffer

    ghost predicate Valid()
      reads this, pool, pool.metainfo, pool.blocks, pool.disk
    {
      0 <= blockNum < DISK_BLOCKS && pool.Sound()
    }

    /** A buffer for an existing block; nothing is read until the first access. */
    constructor (blockNum: int, pool: StaticBuffer)
      ensures this.blockNum == blockNum && this.pool == pool
    {
      this.blockNum := blockNum;
      this.pool := pool;
    }

    /** The content this buffer's block has, whether resident or not. */
    ghost function Content(): seq<byte>
      reads this, pool, pool.metainfo, pool.blocks, pool.disk
      requires Valid()
    {
      pool.LogicalBlock(blockNum)
    }

    /**
     * Brings the block into a frame and returns that frame's index; the frame holds the
     * block's content and no block's content changes.
     */
    method LoadBlockAndGetBufferPtr() returns (bufferNum: int)
      requires Valid()
      modifies pool.metainfo, pool.blocks, pool.disk
      ensures Valid()
      ensures pool.State() == AfterLoad(old(pool.State()), blockNum)
      ensures bufferNum == LoadFrame(old(pool.State()), blockNum)
      ensures pool.blocks[bufferNum] == old(Content())
    {
      ghost var p := pool.State();
      LoadKeepsContent(p, blockNum);
      var r := pool.GetBufferNum(blockNum);
      if r != Err(BlockNotInBuffer) {
        pool.IncrementTimeStamps();
        bufferNum := r.value;
        pool.metainfo[bufferNum] := pool.metainfo[bufferNum].(timeStamp := 0);
      } else {
        var g := pool.GetFreeBuffer(blockNum);
        bufferNum := g.value;
        var data := pool.disk.ReadBlock(blockNum);
        pool.blocks[bufferNum] := data;
      }
      assert pool.State() == AfterLoad(p, blockNum);
    }

    /**
     * The header as getHeader fills the caller's structure `head`: five fields from the
     * block, blockType and pblock left as `head` had them.
     */
    method GetHeader(head: HeadInfo) returns (r: HeadInfo)
      requires Valid()
      modifies pool.metainfo, pool.blocks, pool.disk
      ensures Valid()
      ensures pool.State() == AfterLoad(old(pool.State()), blockNum)
      ensures r == ReadHeader(head, old(Content()))
    {
      var f := LoadBlockAndGetBufferPtr();
      var bytes := pool.blocks[f];
      r := head.(
        numSlots := Int32At(bytes, NUM_SLOTS_AT),
        numEntries := Int32At(bytes, NUM_ENTRIES_AT),
        numAttrs := Int32At(bytes, NUM_ATTRS_AT),
        rblock := Int32At(bytes, RBLOCK_AT),
        lblock := Int32At(bytes, LBLOCK_AT));
    }

    /**
     * The bytes of record `slot`: numAttrs * ATTR_SIZE bytes at
     * HEADER_SIZE + numSlots + numAttrs * ATTR_SIZE * slot. There is no bounds check on
     * `slot`; a copy that would leave the block (as linearSearch's read at slot == numSlots
     * can) has no defined result and gives None here.
     */
    method GetRecord(slot: int) returns (rec: Option<seq<byte>>)
      requires Valid()
      modifies pool.metainfo, pool.blocks, pool.disk
      ensures Valid()
      ensures pool.State() == AfterLoad(AfterLoad(old(pool.State()), blockNum), blockNum)
      ensures var h := ReadFullHeader(old(Content()));
        && (RecordFits(h.numSlots, h.numAttrs, slot) ==> rec == Some(RecordBytes(old(Content()), h.numSlots, h.numAttrs, slot)))
        && (!RecordFits(h.numSlots, h.numAttrs, slot) ==> rec == None)
    {
      LoadKeepsContent(pool.State(), blockNum);
      var head := GetHeader(HeadInfo(0, 0, 0, 0, 0, 0, 0));
      LoadKeepsContent(pool.State(), blockNum);
      var f := LoadBlockAndGetBufferPtr();
      if !RecordFits(head.numSlots, head.numAttrs, slot) {
        return None;
      }
      rec := Some(RecordBytes(pool.blocks[f], head.numSlots, head.numAttrs, slot));
    }

    /**
     * The slot map: numSlots bytes from HEADER_SIZE on. A header whose numSlots is negative
     * or runs the map past the block makes the copy leave the frame; that has no defined
     * result and gives None here.
     */
    method GetSlotMap() returns (slotMap: Option<seq<byte>>)
      requires Valid()
      modifies pool.metainfo, pool.blocks, pool.disk
      ensures Valid()
      ensures pool.State() == AfterLoad(AfterLoad(old(pool.State()), blockNum), blockNum)
      ensures var n := ReadFullHeader(old(Content())).numSlots;
        && (0 <= n && HEADER_SIZE + n <= BLOCK_SIZE ==> slotMap == Some(SlotMapBytes(old(Content()), n)))
        && (!(0 <= n && HEADER_SIZE + n <= BLOCK_SIZE) ==> slotMap == None)
    {
      LoadKeepsContent(pool.State(), blockNum);
      var f := LoadBlockAndGetBufferPtr();
      LoadKeepsContent(pool.State(), blockNum);
      var head := GetHeader(HeadInfo(0, 0, 0, 0, 0, 0, 0));
      if !(0 <= head.numSlots && HEADER_SIZE + head.numSlots <= BLOCK_SIZE) {
        return None;
      }
      slotMap := Some(SlotMapBytes(pool.blocks[f], head.numSlots));
    }

    /**
     * Stores `rec` (numAttrs * ATTR_SIZE bytes) as record `slot` and marks the frame dirty;
     * E_OUTOFBOUND, with every block's content unchanged, when slot is not in [0, numSlots).
     */
    method SetRecord(rec: seq<byte>, slot: int) returns (s: Status)
      requires Valid()
      requires var h := ReadFullHeader(Content());
        && |rec| == RecordSize(h.numAttrs)
        && (0 <= slot < h.numSlots ==> RecordFits(h.numSlots, h.numAttrs, slot))
      modifies pool.metainfo, pool.blocks, pool.disk
      ensures Valid()
      ensures var h := ReadFullHeader(old(Content()));
        var loaded := AfterLoad(AfterLoad(old(pool.State()), blockNum), blockNum);
        if 0 <= slot < h.numSlots then
          && s == Success
          && pool.State() == AfterWrite(loaded, blockNum, WriteRecord(old(Content()), h.numSlots, h.numAttrs, slot, rec))
        else
          s == OutOfBound && pool.State() == loaded
      ensures var h := ReadFullHeader(old(Content()));
        Content() == if 0 <= slot < h.numSlots then WriteRecord(old(Content()), h.numSlots, h.numAttrs, slot, rec) else old(Content())
      ensures forall b :: 0 <= b < DISK_BLOCKS && b != blockNum ==> pool.LogicalBlock(b) == old(pool.LogicalBlock(b))
    {
      ghost var content := Content();
      LoadKeepsContent(pool.State(), blockNum);
      var f := LoadBlockAndGetBufferPtr();
      ghost var p1 := pool.State();
      LoadKeepsContent(p1, blockNum);
      var head := GetHeader(HeadInfo(0, 0, 0, 0, 0, 0, 0));
      assert content == Content();
      assert head.numSlots == ReadFullHeader(content).numSlots && head.numAttrs == ReadFullHeader(content).numAttrs;
      if slot < 0 || slot >= head.numSlots {
        return OutOfBound;
      }
      assert f == FindFrame(pool.metainfo[..], blockNum) && pool.blocks[f] == content;
      var data := WriteRecord(pool.blocks[f], head.numSlots, head.numAttrs, slot, rec);
      StoreFrame(f, data);
      s := Success;
    }

    /** Writes the seven header fields of `head` at their offsets and marks the frame dirty. */
    method SetHeader(head: HeadInfo) returns (s: Status)
      requires Valid() && HeaderFits(head)
      modifies pool.metainfo, pool.blocks, pool.disk
      ensures Valid()
      ensures s == Success
      ensures pool.State() == AfterWrite(AfterLoad(old(pool.State()), blockNum), blockNum, WriteHeader(old(Content()), head))
      ensures Content() == WriteHeader(old(Content()), head)
      ensures forall b :: 0 <= b < DISK_BLOCKS && b != blockNum ==> pool.LogicalBlock(b) == old(pool.LogicalBlock(b))
    {
      LoadKeepsContent(pool.State(), blockNum);
      var f := LoadBlockAndGetBufferPtr();
      var bytes := WriteHeader(pool.blocks[f], head);
      StoreFrame(f, bytes);
      s := Success;
    }

    /**
     * The common tail of setRecord and setHeader: the new bytes go into frame `f`, which
     * holds the block, and setDirtyBit marks that frame dirty.
     */
    method StoreFrame(f: int, data: seq<byte>)
      requires Valid() && |data| == BLOCK_SIZE
      requires 0 <= f < BUFFER_CAPACITY && f == FindFrame(pool.metainfo[..], blockNum)
      modifies pool.metainfo, pool.blocks
      ensures Valid()
      ensures pool.State() == AfterWrite(old(pool.State()), blockNum, data)
      ensures Content() == data
      ensures forall b :: 0 <= b < DISK_BLOCKS && b != blockNum ==> pool.LogicalBlock(b) == old(pool.LogicalBlock(b))
    {
      ghost var p := pool.State();
      WriteKeepsOthers(p, blockNum, data);
      pool.blocks[f] := data;
      var d := pool.SetDirtyBit(blockNum);
      assert pool.State() == AfterWrite(p, blockNum, data);
    }
  }

  /**
   * The whole-record round trip: after setRecord at `slot`, the header is unchanged and
   * getRecord at `slot` returns the record written.
   */
  lemma SetThenGetRecord(block: seq<byte>, slot: int, rec: seq<byte>)
    requires IsBlock(block)
    requires var h := ReadFullHeader(block);
      0 <= slot && RecordFits(h.numSlots, h.numAttrs, slot) && |rec| == RecordSize(h.numAttrs)
    ensures var h := ReadFullHeader(block);
      var w := WriteRecord(block, h.numSlots, h.numAttrs, slot, rec);
      && ReadFullHeader(w) == h
      && RecordBytes(w, h.numSlots, h.numAttrs, slot) == rec
      && SlotMapBytes(w, h.numSlots) == SlotMapBytes(block, h.numSlots)
  {
    var h := ReadFullHeader(block);
    var w := WriteRecord(block, h.numSlots, h.numAttrs, slot, rec);
    assert w[..HEADER_SIZE + h.numSlots] == block[..HEADER_SIZE + h.numSlots];
    assert w[..28] == block[..28];
    assert w[HEADER_SIZE .. HEADER_SIZE + h.numSlots] == block[HEADER_SIZE .. HEADER_SIZE + h.numSlots];
  }

  // ---- Attribute comparison ----

  /**
   * C's strcmp: the difference of the first differing characters, the end of a string
   * reading as NUL, and 0 once both strings reach a NUL together.
   */
  function StrCmp(s: string, t: string): int
    decreases |s|
  {
    var a := if |s| == 0 then 0 else s[0] as int;
    var b := if |t| == 0 then 0 else t[0] as int;
    if a != b then a - b
    else if a == 0 then 0
    else StrCmp(s[1..], t[1..])
  }

  /**
   * The C string s stands for: its characters before the first NUL, or all of s when it
   * holds none.
   */
  function CStr(s: string): (r: string)
    ensures |r| <= |s| && r == s[..|r|] && NulFree(r)
    ensures |r| == |s| || s[|r|] == '\0'
  {
    if |s| == 0 || s[0] == '\0' then "" else [s[0]] + CStr(s[1..])
  }

  /** A string without a NUL is its own C string. */
  lemma CStrOfNulFree(s: string)
    requires NulFree(s)
    ensures CStr(s) == s
  {
  }

  /** Whatever follows a NUL is not part of the C string. */
  lemma CStrStopsAtNul(s: string, t: string)
    requires NulFree(s)
    ensures CStr(s + "\0" + t) == s
  {
    var u := s + "\0" + t;
    var r := CStr(u);
    assert u[|s|] == '\0';
    assert u[..|s|] == s;
  }

  /** strcmp reports 0 exactly when the two C strings are equal, so "equal" is an equivalence. */
  lemma {:induction false} StrCmpZeroIffSameCStr(s: string, t: string)
    ensures StrCmp(s, t) == 0 <==> CStr(s) == CStr(t)
    decreases |s|
  {
    if |s| > 0 && |t| > 0 && s[0] == t[0] && s[0] != '\0' {
      StrCmpZeroIffSameCStr(s[1..], t[1..]);
      var cs, ct := CStr(s[1..]), CStr(t[1..]);
      assert ([s[0]] + cs == [t[0]] + ct) ==> cs == ct by {
        if [s[0]] + cs == [t[0]] + ct {
          assert cs == ([s[0]] + cs)[1..];
        }
      }
    } else if |s| > 0 && |t| > 0 && s[0] != '\0' && t[0] != '\0' {
      assert CStr(s)[0] != CStr(t)[0];
    } else if |s| > 0 && s[0] != '\0' {
      assert |CStr(s)| > 0;
    } else if |t| > 0 && t[0] != '\0' {
      assert |CStr(t)| > 0;
    }
  }

  predicate NulFree(s: string) {
    forall i :: 0 <= i < |s| ==> s[i] != '\0'
  }

  lemma {:induction false} StrCmpAntisymmetric(s: string, t: string)
    ensures StrCmp(s, t) == -StrCmp(t, s)
  {
    if |s| > 0 && |t| > 0 && s[0] == t[0] {
      StrCmpAntisymmetric(s[1..], t[1..]);
    }
  }

  /** For strings without an embedded NUL, strcmp is 0 exactly for equal strings. */
  lemma {:induction false} StrCmpZeroIffEqual(s: string, t: string)
    requires NulFree(s) && NulFree(t)
    ensures StrCmp(s, t) == 0 <==> s == t
  {
    if |s| == 0 && |t| > 0 {
      assert t[0] != '\0';
    } else if |s| > 0 && |t| == 0 {
      assert s[0] != '\0';
    } else if |s| > 0 && |t| > 0 && s[0] == t[0] {
      StrCmpZeroIffEqual(s[1..], t[1..]);
      if s[1..] == t[1..] {
        assert s == [s[0]] + s[1..] && t == [t[0]] + t[1..];
      }
    }
  }

  function Sign(x: int): (r: int)
    ensures r == -1 || r == 0 || r == 1
    ensures (r < 0 <==> x < 0) && (r == 0 <==> x == 0) && (r > 0 <==> x > 0)
  {
    if x < 0 then -1 else if x > 0 then 1 else 0
  }

  /**
   * compareAttrs: -1, 0 or 1, as the sign of strcmp for STRING and of the difference of the
   * numbers for any other type.
   */
  function CompareAttrs(a1: Attr, a2: Attr, attrType: int): (r: int)
    ensures r == -1 || r == 0 || r == 1
    ensures attrType == STRING ==> r == Sign(StrCmp(AsStr(a1), AsStr(a2)))
    ensures attrType != STRING ==>
      (r < 0 <==> AsNum(a1) < AsNum(a2)) && (r == 0 <==> AsNum(a1) == AsNum(a2)) && (r > 0 <==> AsNum(a1) > AsNum(a2))
  {
    var diff := if attrType == STRING then StrCmp(AsStr(a1), AsStr(a2)) else AsNum(a1) - AsNum(a2);
    if diff < 0 then -1 else if diff > 0 then 1 else 0
  }

  /** Swapping the operands negates the comparison. */
  lemma CompareAttrsAntisymmetric(a1: Attr, a2: Attr, attrType: int)
    ensures CompareAttrs(a1, a2, attrType) == -CompareAttrs(a2, a1, attrType)
  {
    StrCmpAntisymmetric(AsStr(a1), AsStr(a2));
  }

  /** On NUL-free strings, a STRING comparison is 0 exactly when the strings are equal. */
  lemma CompareStringsZeroIffEqual(a1: Attr, a2: Attr)
    requires NulFree(AsStr(a1)) && NulFree(AsStr(a2))
    ensures CompareAttrs(a1, a2, STRING) == 0 <==> AsStr(a1) == AsStr(a2)
  {
    StrCmpZeroIffEqual(AsStr(a1), AsStr(a2));
  }
}
