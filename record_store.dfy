/**
 * The record-level view of the disk that the block-access layer works on: every block as a
 * header, a slot map (true = occupied) and the records stored in its slots, together with
 * the block-allocation map. Reads are functions of this view; every write goes through one
 * of the methods below, which stand for RecBuffer::setRecord, setHeader, setSlotMap,
 * releaseBlock and the allocating RecBuffer constructor.
 */
module RecordStore {
  import opened Defs

  datatype RecBlock = RecBlock(head: HeadInfo, slotMap: seq<bool>, records: map<int, seq<Attr>>)

  /** The record in slot `slot`; a slot never written holds no defined value, here []. */
  function RecordOf(blk: RecBlock, slot: int): seq<Attr> {
    if slot in blk.records then blk.records[slot] else []
  }

  /** Slot `s` is inside the slot map and marked occupied. */
  predicate Used(blk: RecBlock, s: int) {
    0 <= s < |blk.slotMap| && blk.slotMap[s]
  }

  /** The slot map has exactly the number of slots the header announces. */
  predicate BlockOk(blk: RecBlock) {
    0 <= blk.head.numSlots == |blk.slotMap|
  }

  /** The number of occupied entries of a slot map. */
  function Count(sm: seq<bool>): (n: nat)
    ensures n <= |sm|
  {
    if sm == [] then 0 else Count(sm[..|sm| - 1]) + (if sm[|sm| - 1] then 1 else 0)
  }

  /** The count is 0 exactly when every entry is free, and the length exactly when none is. */
  lemma {:induction false} CountExtremes(sm: seq<bool>)
    ensures Count(sm) == 0 <==> forall i :: 0 <= i < |sm| ==> !sm[i]
    ensures Count(sm) == |sm| <==> forall i :: 0 <= i < |sm| ==> sm[i]
    decreases |sm|
  {
    if sm != [] {
      var init := sm[..|sm| - 1];
      CountExtremes(init);
      assert forall i :: 0 <= i < |init| ==> init[i] == sm[i];
    }
  }

  /** Clearing one occupied entry lowers the count by exactly one. */
  lemma {:induction false} CountClear(sm: seq<bool>, s: int)
    requires 0 <= s < |sm| && sm[s]
    ensures Count(sm[s := false]) == Count(sm) - 1
    decreases |sm|
  {
    var t := sm[s := false];
    if s < |sm| - 1 {
      assert t[..|t| - 1] == sm[..|sm| - 1][s := false];
      CountClear(sm[..|sm| - 1], s);
    } else {
      assert t[..|t| - 1] == sm[..|sm| - 1];
    }
  }

  /** Setting one free entry raises the count by exactly one. */
  lemma {:induction false} CountSet(sm: seq<bool>, s: int)
    requires 0 <= s < |sm| && !sm[s]
    ensures Count(sm[s := true]) == Count(sm) + 1
    decreases |sm|
  {
    var t := sm[s := true];
    if s < |sm| - 1 {
      assert t[..|t| - 1] == sm[..|sm| - 1][s := true];
      CountSet(sm[..|sm| - 1], s);
    } else {
      assert t[..|t| - 1] == sm[..|sm| - 1];
    }
  }

  /** A map with an occupied entry counts at least one. */
  lemma {:induction false} CountPositive(sm: seq<bool>, s: int)
    requires 0 <= s < |sm| && sm[s]
    ensures Count(sm) >= 1
    decreases |sm|
  {
    if s < |sm| - 1 {
      CountPositive(sm[..|sm| - 1], s);
    }
  }

  /** A map of free entries only counts zero. */
  lemma {:induction false} CountAllFree(n: nat)
    ensures Count(seq(n, _ => false)) == 0
  {
    if n > 0 {
      assert seq(n, _ => false)[..n - 1] == seq(n - 1, _ => false);
      CountAllFree(n - 1);
    }
  }

  /** The lowest block the allocation map marks unused at or after `from`, or -1. */
  function FirstUnused(am: seq<int>, from: nat): (r: int)
    requires from <= |am|
    ensures r == -1 || (from <= r < |am| && am[r] == UNUSED_BLK)
    ensures forall j :: from <= j < |am| && (r == -1 || j < r) ==> am[j] != UNUSED_BLK
    decreases |am| - from
  {
    if from == |am| then -1 else if am[from] == UNUSED_BLK then from else FirstUnused(am, from + 1)
  }

  /** The header a block gets when it is allocated as a record block. */
  const FRESH_REC_HEAD: HeadInfo := HeadInfo(REC, -1, -1, -1, 0, 0, 0)

  class RecordStore {
    var blocks: seq<RecBlock>
    var allocMap: seq<int>

    ghost predicate Valid()
      reads this
    {
      |blocks| == DISK_BLOCKS && |allocMap| == DISK_BLOCKS
    }

    constructor (blocks: seq<RecBlock>, allocMap: seq<int>)
      requires |blocks| == DISK_BLOCKS && |allocMap| == DISK_BLOCKS
      ensures Valid() && this.blocks == blocks && this.allocMap == allocMap
    {
      this.blocks := blocks;
      this.allocMap := allocMap;
    }

    /**
     * Stores `rec` in slot `slot` of block `b`; E_OUTOFBOUND, with nothing changed, when the
     * slot is outside [0, numSlots).
     */
    method SetRecord(b: int, slot: int, rec: seq<Attr>) returns (s: Status)
      requires Valid() && 0 <= b < DISK_BLOCKS
      modifies this
      ensures Valid() && allocMap == old(allocMap)
      ensures 0 <= slot < old(blocks[b].head.numSlots) ==>
        s == Success && blocks == old(blocks)[b := old(blocks[b]).(records := old(blocks[b].records)[slot := rec])]
      ensures !(0 <= slot < old(blocks[b].head.numSlots)) ==> s == OutOfBound && blocks == old(blocks)
    {
      if slot < 0 || slot >= blocks[b].head.numSlots {
        return OutOfBound;
      }
      blocks := blocks[b := blocks[b].(records := blocks[b].records[slot := rec])];
      s := Success;
    }

    /** Replaces the header of block `b`. */
    method SetHeader(b: int, h: HeadInfo)
      requires Valid() && 0 <= b < DISK_BLOCKS
      modifies this
      ensures Valid() && allocMap == old(allocMap)
      ensures blocks == old(blocks)[b := old(blocks[b]).(head := h)]
    {
      blocks := blocks[b := blocks[b].(head := h)];
    }

    /** Replaces the slot map of block `b` by one of numSlots entries. */
    method SetSlotMap(b: int, sm: seq<bool>)
      requires Valid() && 0 <= b < DISK_BLOCKS && |sm| == blocks[b].head.numSlots
      modifies this
      ensures Valid() && allocMap == old(allocMap)
      ensures blocks == old(blocks)[b := old(blocks[b]).(slotMap := sm)]
    {
      blocks := blocks[b := blocks[b].(slotMap := sm)];
    }

    /**
     * Marks block `b` unused in the allocation map. The content stays as it was, so a
     * second release changes nothing more.
     */
    method ReleaseBlock(b: int)
      requires Valid() && 0 <= b < DISK_BLOCKS
      modifies this
      ensures Valid() && blocks == old(blocks)
      ensures allocMap == old(allocMap)[b := UNUSED_BLK]
    {
      allocMap := allocMap[b := UNUSED_BLK];
    }

    /**
     * Allocates the lowest unused block as a record block with an empty header
     * (blockType REC, every link -1, no slots), or E_DISKFULL, with nothing changed, when
     * every block is in use.
     */
    method AllocRecBlock() returns (r: Result<int>)
      requires Valid()
      modifies this
      ensures Valid()
      ensures var f := FirstUnused(old(allocMap), 0);
        if f == -1 then r == Err(DiskFull) && blocks == old(blocks) && allocMap == old(allocMap)
        else
          && r == Ok(f)
          && allocMap == old(allocMap)[f := REC]
          && blocks == old(blocks)[f := RecBlock(FRESH_REC_HEAD, [], map[])]
    {
      var i := 0;
      while i < DISK_BLOCKS && allocMap[i] != UNUSED_BLK
        invariant 0 <= i <= DISK_BLOCKS
        invariant FirstUnused(allocMap, 0) == FirstUnused(allocMap, i)
      {
        i := i + 1;
      }
      if i == DISK_BLOCKS {
        return Err(DiskFull);
      }
      allocMap := allocMap[i := REC];
      blocks := blocks[i := RecBlock(FRESH_REC_HEAD, [], map[])];
      r := Ok(i);
    }
  }
}
