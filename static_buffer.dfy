/**
 * The buffer pool: BUFFER_CAPACITY in-memory frames, each with its metadata (free, dirty,
 * timestamp, block number), and the block-allocation map. Eviction approximates
 * least-recently-used with logical timestamps.
 */
module StaticBuffer {
  import opened Defs
  import opened Disk

  datatype BufferMetaInfo = BufferMetaInfo(free: bool, dirty: bool, timeStamp: int, blockNum: int)

  const FREE_FRAME: BufferMetaInfo := BufferMetaInfo(true, false, -1, -1)

  /** A frame's metadata after one tick of the clock: occupied frames grow older. */
  function Age(e: BufferMetaInfo): BufferMetaInfo {
    if e.free then e else e.(timeStamp := e.timeStamp + 1)
  }

  function Aged(m: seq<BufferMetaInfo>): seq<BufferMetaInfo> {
    seq(|m|, i requires 0 <= i < |m| => Age(m[i]))
  }

  /** A free frame holds no block; an occupied one holds a valid block and has a timestamp. */
  predicate FrameOk(e: BufferMetaInfo) {
    if e.free then e.blockNum == -1 else 0 <= e.blockNum < DISK_BLOCKS && e.timeStamp >= 0
  }

  predicate MetaOk(m: seq<BufferMetaInfo>) {
    forall i :: 0 <= i < |m| ==> FrameOk(m[i])
  }

  /** No block is held by two occupied frames. */
  predicate Distinct(m: seq<BufferMetaInfo>) {
    forall i, j :: 0 <= i < |m| && 0 <= j < |m| && i != j && !m[i].free ==> m[i].blockNum != m[j].blockNum
  }

  /** The lowest free frame at or after `from`, or -1 when there is none. */
  function FirstFreeFrom(m: seq<BufferMetaInfo>, from: nat): (r: int)
    requires from <= |m|
    ensures r == -1 || from <= r < |m|
    ensures r >= 0 ==> m[r].free
    ensures forall j :: from <= j < |m| && (r == -1 || j < r) ==> !m[j].free
    decreases |m| - from
  {
    if from == |m| then -1 else if m[from].free then from else FirstFreeFrom(m, from + 1)
  }

  function FirstFree(m: seq<BufferMetaInfo>): int {
    FirstFreeFrom(m, 0)
  }

  /** Among frames 0..n-1, the first one with the largest timestamp. */
  function Victim(m: seq<BufferMetaInfo>, n: int): (r: int)
    requires 0 < n <= |m|
    ensures 0 <= r < n
    ensures forall j :: 0 <= j < n ==> m[j].timeStamp <= m[r].timeStamp
    ensures forall j :: 0 <= j < r ==> m[j].timeStamp < m[r].timeStamp
    decreases n
  {
    if n == 1 then 0
    else
      var p := Victim(m, n - 1);
      if m[n - 1].timeStamp > m[p].timeStamp then n - 1 else p
  }

  /** The frame getFreeBuffer hands out: the lowest free one, else the oldest occupied one. */
  function Chosen(m: seq<BufferMetaInfo>): (r: int)
    requires |m| > 0
    ensures 0 <= r < |m|
    ensures (exists i :: 0 <= i < |m| && m[i].free) ==> m[r].free && forall j :: 0 <= j < r ==> !m[j].free
    ensures (forall i :: 0 <= i < |m| ==> !m[i].free) ==>
      && (forall j :: 0 <= j < |m| ==> m[j].timeStamp <= m[r].timeStamp)
      && (forall j :: 0 <= j < r ==> m[j].timeStamp < m[r].timeStamp)
  {
    var f := FirstFree(m);
    if f >= 0 then f else Victim(m, |m|)
  }

  /** The first frame at or after `from` whose block number is `b`, or -1. */
  function FindFrameFrom(m: seq<BufferMetaInfo>, b: int, from: nat): (r: int)
    requires from <= |m|
    ensures r == -1 || from <= r < |m|
    ensures r >= 0 ==> m[r].blockNum == b
    ensures forall j :: from <= j < |m| && (r == -1 || j < r) ==> m[j].blockNum != b
    decreases |m| - from
  {
    if from == |m| then -1 else if m[from].blockNum == b then from else FindFrameFrom(m, b, from + 1)
  }

  function FindFrame(m: seq<BufferMetaInfo>, b: int): int {
    FindFrameFrom(m, b, 0)
  }

  /** Every clean occupied frame holds the same bytes as its block on the disk. */
  predicate CoherentWith(m: seq<BufferMetaInfo>, bl: seq<seq<byte>>, img: seq<seq<byte>>) {
    forall i :: 0 <= i < |m| && i < |bl| && !m[i].free && !m[i].dirty && 0 <= m[i].blockNum < |img| ==>
      bl[i] == img[m[i].blockNum]
  }

  /** The current content of block b: its frame when it is resident, the disk otherwise. */
  function Logical(m: seq<BufferMetaInfo>, bl: seq<seq<byte>>, img: seq<seq<byte>>, b: int): seq<byte>
    requires |bl| == |m| && 0 <= b < |img|
  {
    var f := FindFrame(m, b);
    if f >= 0 then bl[f] else img[b]
  }

  /** The disk after the victim of an eviction has been written back, when it was dirty. */
  function Evicted(img: seq<seq<byte>>, m: seq<BufferMetaInfo>, bl: seq<seq<byte>>, v: int): (r: seq<seq<byte>>)
    requires 0 <= v < |m| == |bl| && MetaOk(m) && |img| == DISK_BLOCKS
    ensures |r| == DISK_BLOCKS
    ensures (forall d :: 0 <= d < DISK_BLOCKS ==> |img[d]| == BLOCK_SIZE) && |bl[v]| == BLOCK_SIZE ==>
      forall d :: 0 <= d < DISK_BLOCKS ==> |r[d]| == BLOCK_SIZE
  {
    if FirstFree(m) == -1 && m[v].dirty then img[m[v].blockNum := bl[v]] else img
  }

  /** The disk after the destructor wrote the allocation map into blocks 0..3. */
  function AllocMapWritten(img: seq<seq<byte>>, am: seq<byte>): (r: seq<seq<byte>>)
    requires |img| == DISK_BLOCKS && |am| == DISK_BLOCKS
    ensures |r| == DISK_BLOCKS
  {
    seq(DISK_BLOCKS, b requires 0 <= b < DISK_BLOCKS =>
      if b < BLOCK_ALLOCATION_MAP_SIZE then am[b * BLOCK_SIZE .. (b + 1) * BLOCK_SIZE] else img[b])
  }

  /** The disk after the destructor wrote back every occupied dirty frame from `from` on. */
  function FlushFrames(img: seq<seq<byte>>, m: seq<BufferMetaInfo>, bl: seq<seq<byte>>, from: nat): (r: seq<seq<byte>>)
    requires from <= |m| == |bl| && MetaOk(m) && |img| == DISK_BLOCKS
    ensures |r| == DISK_BLOCKS
    decreases |m| - from
  {
    if from == |m| then img
    else
      var img' := if !m[from].free && m[from].dirty then img[m[from].blockNum := bl[from]] else img;
      FlushFrames(img', m, bl, from + 1)
  }

  /** Write-back puts into block b the frame that holds b when that frame is dirty, and nothing else. */
  lemma {:induction false} FlushFramesAt(img: seq<seq<byte>>, m: seq<BufferMetaInfo>, bl: seq<seq<byte>>, from: nat, b: int)
    requires from <= |m| == |bl| && MetaOk(m) && Distinct(m) && |img| == DISK_BLOCKS
    requires 0 <= b < DISK_BLOCKS
    ensures var f := FindFrameFrom(m, b, from);
      FlushFrames(img, m, bl, from)[b] == if f >= 0 && m[f].dirty then bl[f] else img[b]
    decreases |m| - from
  {
    if from < |m| {
      var img' := if !m[from].free && m[from].dirty then img[m[from].blockNum := bl[from]] else img;
      FlushFramesAt(img', m, bl, from + 1, b);
      if m[from].blockNum == b {
        // No later frame holds b, so the write made here is the last one to b.
        assert FindFrameFrom(m, b, from + 1) == -1;
      }
    }
  }

  /**
   * After the destructor, every block beyond the allocation map holds its logical content:
   * nothing cached is lost, provided the pool was coherent.
   */
  lemma FlushedImageIsLogical(img: seq<seq<byte>>, am: seq<byte>, m: seq<BufferMetaInfo>, bl: seq<seq<byte>>, b: int)
    requires |m| == |bl| && MetaOk(m) && Distinct(m) && CoherentWith(m, bl, img)
    requires |img| == DISK_BLOCKS && |am| == DISK_BLOCKS
    requires BLOCK_ALLOCATION_MAP_SIZE <= b < DISK_BLOCKS
    ensures FlushFrames(AllocMapWritten(img, am), m, bl, 0)[b] == Logical(m, bl, img, b)
  {
    FlushFramesAt(AllocMapWritten(img, am), m, bl, 0, b);
  }

  /** The state of the pool: frame metadata, frame contents and the disk image. */
  datatype Pool = Pool(meta: seq<BufferMetaInfo>, frames: seq<seq<byte>>, image: seq<seq<byte>>)

  predicate PoolValid(p: Pool) {
    && |p.meta| == BUFFER_CAPACITY
    && |p.frames| == BUFFER_CAPACITY
    && (forall i :: 0 <= i < BUFFER_CAPACITY ==> |p.frames[i]| == BLOCK_SIZE)
    && MetaOk(p.meta)
    && |p.image| == DISK_BLOCKS
    && (forall b :: 0 <= b < DISK_BLOCKS ==> |p.image[b]| == BLOCK_SIZE)
  }

  predicate PoolSound(p: Pool) {
    PoolValid(p) && Distinct(p.meta) && CoherentWith(p.meta, p.frames, p.image)
  }

  function LogicalOf(p: Pool, b: int): seq<byte>
    requires PoolValid(p) && 0 <= b < DISK_BLOCKS
  {
    Logical(p.meta, p.frames, p.image, b)
  }

  class StaticBuffer {
    const disk: Disk
    const metainfo: array<BufferMetaInfo>
    const blocks: array<seq<byte>>
    const blockAllocMap: array<byte>

    /** The frames, their metadata and the disk, as one value. */
    ghost function State(): Pool
      reads this, metainfo, blocks, disk
    {
      Pool(metainfo[..], blocks[..], disk.image)
    }

    ghost predicate Valid()
      reads this, metainfo, blocks, disk
    {
      && blockAllocMap.Length == DISK_BLOCKS
      && disk.Valid()
      && PoolValid(State())
    }

    /** Valid, no block cached twice, and clean frames mirror the disk. */
    ghost predicate Sound()
      reads this, metainfo, blocks, disk
    {
      Valid() && PoolSound(State())
    }

    ghost function LogicalBlock(b: int): seq<byte>
      reads this, metainfo, blocks, disk
      requires Valid() && 0 <= b < DISK_BLOCKS
    {
      LogicalOf(State(), b)
    }

    /** Loads the allocation map from the first four disk blocks and marks every frame free. */
    constructor (d: Disk)
      requires d.Valid()
      ensures Sound()
      ensures disk == d && disk.image == old(d.image)
      ensures fresh(metainfo) && fresh(blocks) && fresh(blockAllocMap)
      ensures forall i :: 0 <= i < BUFFER_CAPACITY ==> metainfo[i] == FREE_FRAME
      ensures forall i, k :: 0 <= i < BLOCK_ALLOCATION_MAP_SIZE && 0 <= k < BLOCK_SIZE ==>
        blockAllocMap[i * BLOCK_SIZE + k] == d.image[i][k]
    {
      disk := d;
      metainfo := new BufferMetaInfo[BUFFER_CAPACITY];
      blocks := new seq<byte>[BUFFER_CAPACITY](_ => seq(BLOCK_SIZE, _ => 0 as byte));
      blockAllocMap := new byte[DISK_BLOCKS];
      new;
      for i := 0 to BLOCK_ALLOCATION_MAP_SIZE
        invariant forall j :: 0 <= j < BUFFER_CAPACITY ==> |blocks[j]| == BLOCK_SIZE
        invariant forall i', k :: 0 <= i' < i && 0 <= k < BLOCK_SIZE ==>
          blockAllocMap[i' * BLOCK_SIZE + k] == d.image[i'][k]
      {
        var data := d.ReadBlock(i);
        forall k | 0 <= k < BLOCK_SIZE {
          blockAllocMap[i * BLOCK_SIZE + k] := data[k];
        }
      }
      for i := 0 to BUFFER_CAPACITY
        invariant forall j :: 0 <= j < BUFFER_CAPACITY ==> |blocks[j]| == BLOCK_SIZE
        invariant forall i', k :: 0 <= i' < BLOCK_ALLOCATION_MAP_SIZE && 0 <= k < BLOCK_SIZE ==>
          blockAllocMap[i' * BLOCK_SIZE + k] == d.image[i'][k]
        invariant forall j :: 0 <= j < i ==> metainfo[j] == FREE_FRAME
      {
        metainfo[i] := FREE_FRAME;
      }
    }

    /** Writes back the allocation map and every occupied dirty frame. */
    method Destroy()
      requires Valid()
      modifies disk
      ensures Valid()
      ensures disk.image == FlushFrames(AllocMapWritten(old(disk.image), blockAllocMap[..]), metainfo[..], blocks[..], 0)
    {
      ghost var target := FlushFrames(AllocMapWritten(disk.image, blockAllocMap[..]), metainfo[..], blocks[..], 0);
      ghost var start := disk.image;
      for i := 0 to BLOCK_ALLOCATION_MAP_SIZE
        invariant disk.Valid()
        invariant forall b :: 0 <= b < DISK_BLOCKS ==>
          disk.image[b] == if b < i then blockAllocMap[b * BLOCK_SIZE .. (b + 1) * BLOCK_SIZE] else start[b]
      {
        disk.WriteBlock(blockAllocMap[i * BLOCK_SIZE .. (i + 1) * BLOCK_SIZE], i);
      }
      assert disk.image == AllocMapWritten(start, blockAllocMap[..]);
      for i := 0 to BUFFER_CAPACITY
        invariant disk.Valid()
        invariant FlushFrames(disk.image, metainfo[..], blocks[..], i) == target
      {
        if !metainfo[i].free && metainfo[i].dirty {
          disk.WriteBlock(blocks[i], metainfo[i].blockNum);
        }
      }
    }

    /** Makes every occupied frame one tick older. */
    method IncrementTimeStamps()
      requires Valid()
      modifies metainfo
      ensures Valid()
      ensures metainfo[..] == Aged(old(metainfo[..]))
    {
      for i := 0 to BUFFER_CAPACITY
        invariant forall j :: 0 <= j < i ==> metainfo[j] == Age(old(metainfo[j]))
        invariant forall j :: i <= j < BUFFER_CAPACITY ==> metainfo[j] == old(metainfo[j])
      {
        if !metainfo[i].free {
          metainfo[i] := metainfo[i].(timeStamp := metainfo[i].timeStamp + 1);
        }
      }
    }

    /**
     * Hands out a frame for `blockNum`: ages every occupied frame, then takes the lowest free
     * frame, or else evicts the oldest one (writing it back first when dirty).
     */
    method GetFreeBuffer(blockNum: int) returns (r: Result<int>)
      requires Valid()
      modifies metainfo, disk
      ensures Valid()
      ensures !(0 <= blockNum < DISK_BLOCKS) ==>
        r == Err(OutOfBound) && metainfo[..] == old(metainfo[..]) && disk.image == old(disk.image)
      ensures 0 <= blockNum < DISK_BLOCKS ==>
        var m := Aged(old(metainfo[..]));
        var v := Chosen(m);
        && r == Ok(v)
        && metainfo[..] == m[v := BufferMetaInfo(false, false, 0, blockNum)]
        && disk.image == Evicted(old(disk.image), m, old(blocks[..]), v)
    {
      if blockNum < 0 || blockNum >= DISK_BLOCKS {
        return Err(OutOfBound);
      }
      IncrementTimeStamps();
      ghost var m := metainfo[..];
      var bufferNum := FreeFrameIndex();
      if bufferNum == -1 {
        bufferNum := OldestFrame();
        if metainfo[bufferNum].dirty {
          disk.WriteBlock(blocks[bufferNum], metainfo[bufferNum].blockNum);
        }
      }
      assert bufferNum == Chosen(m);
      ClaimFrame(bufferNum, blockNum);
      r := Ok(bufferNum);
    }

    /** Gives frame v to block `blockNum`: occupied, clean, with timestamp 0. */
    method ClaimFrame(v: int, blockNum: int)
      requires Valid() && 0 <= v < BUFFER_CAPACITY && 0 <= blockNum < DISK_BLOCKS
      modifies metainfo
      ensures Valid()
      ensures metainfo[..] == old(metainfo[..])[v := BufferMetaInfo(false, false, 0, blockNum)]
    {
      metainfo[v] := BufferMetaInfo(false, false, 0, blockNum);
    }

    /** The lowest free frame, or -1 when every frame is occupied. */
    method FreeFrameIndex() returns (f: int)
      requires Valid()
      ensures f == FirstFree(metainfo[..])
    {
      f := -1;
      var i := 0;
      while i < BUFFER_CAPACITY
        invariant 0 <= i <= BUFFER_CAPACITY
        invariant forall j :: 0 <= j < i ==> !metainfo[j].free
      {
        if metainfo[i].free {
          f := i;
          break;
        }
        i := i + 1;
      }
    }

    /** With every frame occupied, the first frame with the largest timestamp. */
    method OldestFrame() returns (v: int)
      requires Valid() && FirstFree(metainfo[..]) == -1
      ensures v == Victim(metainfo[..], BUFFER_CAPACITY)
    {
      ghost var m := metainfo[..];
      var maxTimeStamp := -1;
      v := -1;
      var k := 0;
      while k < BUFFER_CAPACITY
        invariant 0 <= k <= BUFFER_CAPACITY
        invariant k == 0 ==> v == -1 && maxTimeStamp == -1
        invariant k > 0 ==> v == Victim(m, k) && maxTimeStamp == m[v].timeStamp
      {
        if metainfo[k].timeStamp > maxTimeStamp {
          maxTimeStamp := metainfo[k].timeStamp;
          v := k;
        }
        k := k + 1;
      }
    }

    /** The first frame whose block number matches, E_OUTOFBOUND or E_BLOCKNOTINBUFFER. */
    method GetBufferNum(blockNum: int) returns (r: Result<int>)
      requires Valid()
      ensures !(0 <= blockNum < DISK_BLOCKS) ==> r == Err(OutOfBound)
      ensures 0 <= blockNum < DISK_BLOCKS ==>
        var f := FindFrame(metainfo[..], blockNum);
        r == if f >= 0 then Ok(f) else Err(BlockNotInBuffer)
    {
      if blockNum < 0 || blockNum >= DISK_BLOCKS {
        return Err(OutOfBound);
      }
      for i := 0 to BUFFER_CAPACITY
        invariant forall j :: 0 <= j < i ==> metainfo[j].blockNum != blockNum
      {
        if metainfo[i].blockNum == blockNum {
          assert FindFrame(metainfo[..], blockNum) == i;
          return Ok(i);
        }
      }
      assert FindFrame(metainfo[..], blockNum) == -1;
      r := Err(BlockNotInBuffer);
    }

    /** Marks dirty exactly the frame that holds `blockNum`. */
    method SetDirtyBit(blockNum: int) returns (s: Status)
      requires Valid()
      modifies metainfo
      ensures Valid()
      ensures !(0 <= blockNum < DISK_BLOCKS) ==> s == OutOfBound && metainfo[..] == old(metainfo[..])
      ensures 0 <= blockNum < DISK_BLOCKS ==>
        var f := FindFrame(old(metainfo[..]), blockNum);
        && s == (if f >= 0 then Success else BlockNotInBuffer)
        && metainfo[..] == if f >= 0 then old(metainfo[..])[f := old(metainfo[f]).(dirty := true)] else old(metainfo[..])
    {
      var bufferNum := GetBufferNum(blockNum);
      if bufferNum == Err(BlockNotInBuffer) {
        return BlockNotInBuffer;
      } else if bufferNum == Err(OutOfBound) {
        return OutOfBound;
      } else {
        metainfo[bufferNum.value] := metainfo[bufferNum.value].(dirty := true);
      }
      s := Success;
    }

    /** The type recorded for `blockNum` in the block-allocation map. */
    method GetStaticBlockType(blockNum: int) returns (r: Result<int>)
      requires Valid()
      ensures !(0 <= blockNum < DISK_BLOCKS) ==> r == Err(OutOfBound)
      ensures 0 <= blockNum < DISK_BLOCKS ==> r == Ok(blockAllocMap[blockNum] as int)
    {
      if blockNum < 0 || blockNum >= DISK_BLOCKS {
        return Err(OutOfBound);
      }
      r := Ok(blockAllocMap[blockNum] as int);
    }
  }
}
