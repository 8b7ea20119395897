/**
 * The chain of record blocks of one relation, as BlockAccess::insert walks and extends it:
 * where a new record goes, how a block is appended, and the invariant a well-formed chain
 * keeps (doubly linked, firstBlk/lastBlk at its ends, numEntries equal to the occupied
 * slots, numRecs equal to their total).
 */
module Chain {
  import opened Defs
  import opened RecordStore
  import opened Scan

  /** The lowest free slot at or after `from` of a slot map, or -1. */
  function FreeSlotFrom(sm: seq<bool>, from: nat): (r: int)
    requires from <= |sm|
    ensures r == -1 || (from <= r < |sm| && !sm[r])
    ensures forall s :: from <= s < |sm| && (r == -1 || s < r) ==> sm[s]
    decreases |sm| - from
  {
    if from == |sm| then -1 else if !sm[from] then from else FreeSlotFrom(sm, from + 1)
  }

  /** The first index at or after i of the chain whose block has a free slot, or |p|. */
  function FreeBlockFrom(blocks: seq<RecBlock>, p: seq<int>, i: nat): (r: nat)
    requires |blocks| == DISK_BLOCKS && InDisk(p) && i <= |p|
    ensures i <= r <= |p|
    ensures r < |p| ==> FreeSlotFrom(blocks[p[r]].slotMap, 0) != -1
    ensures forall j :: i <= j < r ==> FreeSlotFrom(blocks[p[j]].slotMap, 0) == -1
    decreases |p| - i
  {
    if i == |p| then |p|
    else if FreeSlotFrom(blocks[p[i]].slotMap, 0) != -1 then i
    else FreeBlockFrom(blocks, p, i + 1)
  }

  /** Block b with `rec` stored in slot `slot`, the slot marked occupied and numEntries one higher. */
  function Placed(blocks: seq<RecBlock>, b: int, slot: int, rec: seq<Attr>): (r: seq<RecBlock>)
    requires |blocks| == DISK_BLOCKS && 0 <= b < DISK_BLOCKS && 0 <= slot < |blocks[b].slotMap|
    ensures |r| == DISK_BLOCKS
    ensures Used(r[b], slot) && RecordOf(r[b], slot) == rec
    ensures r[b].head.numEntries == blocks[b].head.numEntries + 1
    ensures r[b].head.(numEntries := blocks[b].head.numEntries) == blocks[b].head
    ensures |r[b].slotMap| == |blocks[b].slotMap|
    ensures forall s :: 0 <= s < |blocks[b].slotMap| && s != slot ==>
      r[b].slotMap[s] == blocks[b].slotMap[s] && RecordOf(r[b], s) == RecordOf(blocks[b], s)
    ensures forall c :: 0 <= c < DISK_BLOCKS && c != b ==> r[c] == blocks[c]
  {
    var blk := blocks[b];
    blocks[b := RecBlock(blk.head.(numEntries := blk.head.numEntries + 1), blk.slotMap[slot := true], blk.records[slot := rec])]
  }

  /** The header insert gives a block it appends after `prev`. */
  function TailHead(prev: int, numSlots: int, numAttrs: int): HeadInfo {
    HeadInfo(REC, -1, prev, -1, 0, numAttrs, numSlots)
  }

  /**
   * The store with block f appended after prev: f gets TailHead, every slot free and no
   * records, and prev (when it is not -1) gets rblock f.
   */
  function Linked(blocks: seq<RecBlock>, f: int, prev: int, numSlots: nat, numAttrs: int): (r: seq<RecBlock>)
    requires |blocks| == DISK_BLOCKS && 0 <= f < DISK_BLOCKS && -1 <= prev < DISK_BLOCKS
    ensures |r| == DISK_BLOCKS
  {
    var b1 := blocks[f := RecBlock(TailHead(prev, numSlots, numAttrs), seq(numSlots, _ => false), map[])];
    if prev == -1 then b1 else b1[prev := b1[prev].(head := b1[prev].head.(rblock := f))]
  }

  /** Everything insert decides: its status, the new store, the relation's new metadata, chain and record id. */
  datatype InsertOutcome = InsertOutcome(
    status: Status,
    blocks: seq<RecBlock>,
    allocMap: seq<int>,
    entry: RelCatEntry,
    chain: seq<int>,
    at: RecId)

  /** The last block of a chain, or -1 for the empty chain. */
  function Tail(p: seq<int>): int {
    if p == [] then -1 else p[|p| - 1]
  }

  /** insert needs block slots when it has to append a block. */
  predicate InsertPre(blocks: seq<RecBlock>, allocMap: seq<int>, p: seq<int>, relId: int, e: RelCatEntry) {
    && |blocks| == DISK_BLOCKS && |allocMap| == DISK_BLOCKS && InDisk(p)
    && (FreeBlockFrom(blocks, p, 0) == |p| && relId != RELCAT_RELID ==> e.numSlotsPerBlk >= 1)
  }

  /**
   * insert on the chain p of relation relId with metadata e: the first free slot in chain
   * order if there is one; otherwise E_MAXRELATIONS for the relation catalog, E_DISKFULL
   * when no block is unused, or slot 0 of the lowest unused block, appended to the chain.
   */
  function InsertSpec(blocks: seq<RecBlock>, allocMap: seq<int>, p: seq<int>, relId: int, e: RelCatEntry, rec: seq<Attr>): InsertOutcome
    requires InsertPre(blocks, allocMap, p, relId, e)
  {
    var i := FreeBlockFrom(blocks, p, 0);
    if i < |p| then
      var s := FreeSlotFrom(blocks[p[i]].slotMap, 0);
      InsertOutcome(Success, Placed(blocks, p[i], s, rec), allocMap, e.(numRecs := e.numRecs + 1), p, RecId(p[i], s))
    else if relId == RELCAT_RELID then InsertOutcome(MaxRelations, blocks, allocMap, e, p, NO_REC)
    else
      var f := FirstUnused(allocMap, 0);
      if f == -1 then InsertOutcome(DiskFull, blocks, allocMap, e, p, NO_REC)
      else
        var prev := Tail(p);
        var e' := e.(firstBlk := if prev == -1 then f else e.firstBlk, lastBlk := f, numRecs := e.numRecs + 1);
        InsertOutcome(Success, Placed(Linked(blocks, f, prev, e.numSlotsPerBlk, e.numAttrs), f, 0, rec),
                      allocMap[f := REC], e', p + [f], RecId(f, 0))
  }

  /** The number of occupied slots over the blocks of a chain. */
  function Total(blocks: seq<RecBlock>, p: seq<int>): int
    requires |blocks| == DISK_BLOCKS && InDisk(p)
  {
    if p == [] then 0 else Total(blocks, p[..|p| - 1]) + Count(blocks[p[|p| - 1]].slotMap)
  }

  /**
   * A well-formed chain of relation metadata e: p is the rblock path from firstBlk to
   * lastBlk, every lblock points back, every block is allocated and counts its occupied
   * slots in numEntries, and numRecs is the number of occupied slots of the chain.
   */
  predicate ChainOk(blocks: seq<RecBlock>, allocMap: seq<int>, p: seq<int>, e: RelCatEntry) {
    && |allocMap| == DISK_BLOCKS
    && PathFrom(blocks, p, 0) && NoRepeats(p)
    && e.firstBlk == (if p == [] then -1 else p[0]) && e.lastBlk == Tail(p)
    && (p != [] ==> blocks[p[0]].head.lblock == -1)
    && (forall i :: 0 < i < |p| ==> blocks[p[i]].head.lblock == p[i - 1])
    && (forall i :: 0 <= i < |p| ==> blocks[p[i]].head.numEntries == Count(blocks[p[i]].slotMap))
    && (forall i :: 0 <= i < |p| ==> allocMap[p[i]] != UNUSED_BLK)
    && e.numRecs == Total(blocks, p)
  }

  /** Total only depends on the slot maps of the chain's blocks. */
  lemma {:induction false} TotalSame(b1: seq<RecBlock>, b2: seq<RecBlock>, p: seq<int>)
    requires |b1| == DISK_BLOCKS && |b2| == DISK_BLOCKS && InDisk(p)
    requires forall i :: 0 <= i < |p| ==> b1[p[i]].slotMap == b2[p[i]].slotMap
    ensures Total(b1, p) == Total(b2, p)
  {
    if p != [] {
      TotalSame(b1, b2, p[..|p| - 1]);
    }
  }

  /** Changing the slot map of one block of a chain without repeats changes Total by the change of its count. */
  lemma {:induction false} TotalOne(b1: seq<RecBlock>, b2: seq<RecBlock>, p: seq<int>, m: int)
    requires |b1| == DISK_BLOCKS && |b2| == DISK_BLOCKS && InDisk(p) && NoRepeats(p) && 0 <= m < |p|
    requires forall i :: 0 <= i < |p| && i != m ==> b1[p[i]].slotMap == b2[p[i]].slotMap
    ensures Total(b2, p) == Total(b1, p) - Count(b1[p[m]].slotMap) + Count(b2[p[m]].slotMap)
  {
    var q := p[..|p| - 1];
    if m == |p| - 1 {
      TotalSame(b1, b2, q);
    } else {
      TotalOne(b1, b2, q, m);
    }
  }

  /** The first free slot of the first block with one: every earlier slot of the chain is occupied. */
  lemma InsertChoosesFirstFreeSlot(blocks: seq<RecBlock>, allocMap: seq<int>, p: seq<int>, relId: int, e: RelCatEntry, rec: seq<Attr>)
    requires InsertPre(blocks, allocMap, p, relId, e) && PathFrom(blocks, p, 0)
    ensures var o := InsertSpec(blocks, allocMap, p, relId, e, rec);
      var i := FreeBlockFrom(blocks, p, 0);
      && (i < |p| ==> o.status == Success && o.at.block == p[i])
      && (i < |p| ==> 0 <= o.at.slot < blocks[p[i]].head.numSlots && !blocks[p[i]].slotMap[o.at.slot])
      && (i < |p| ==> forall q: Pos :: (0 <= q.idx < |p| && 0 <= q.slot < blocks[p[q.idx]].head.numSlots
                                    && Before(q, Pos(i, o.at.slot))) ==> blocks[p[q.idx]].slotMap[q.slot])
      && (i == |p| ==> forall q: Pos :: (0 <= q.idx < |p| && 0 <= q.slot < blocks[p[q.idx]].head.numSlots)
                                     ==> blocks[p[q.idx]].slotMap[q.slot])
  {
    var i := FreeBlockFrom(blocks, p, 0);
    forall q: Pos | 0 <= q.idx < |p| && 0 <= q.slot < blocks[p[q.idx]].head.numSlots && (i == |p| || q.idx < i)
      ensures blocks[p[q.idx]].slotMap[q.slot]
    {
      assert FreeSlotFrom(blocks[p[q.idx]].slotMap, 0) == -1;
    }
  }

  /**
   * A successful insert stores the record in a slot that was free and is now occupied, adds
   * one to numEntries of that block and to numRecs; every other block keeps its slot map and
   * records, and so does every other slot of that block.
   */
  lemma InsertStoresRecord(blocks: seq<RecBlock>, allocMap: seq<int>, p: seq<int>, relId: int, e: RelCatEntry, rec: seq<Attr>)
    requires InsertPre(blocks, allocMap, p, relId, e) && PathFrom(blocks, p, 0)
    ensures var o := InsertSpec(blocks, allocMap, p, relId, e, rec);
      o.status == Success ==>
        && 0 <= o.at.block < DISK_BLOCKS && Used(o.blocks[o.at.block], o.at.slot) && RecordOf(o.blocks[o.at.block], o.at.slot) == rec
        && o.at.block in o.chain
        && o.entry.numRecs == e.numRecs + 1
        && (FreeBlockFrom(blocks, p, 0) < |p| ==> forall s :: s != o.at.slot ==> RecordOf(o.blocks[o.at.block], s) == RecordOf(blocks[o.at.block], s))
        && (forall b :: 0 <= b < DISK_BLOCKS && b != o.at.block ==> o.blocks[b].slotMap == blocks[b].slotMap && o.blocks[b].records == blocks[b].records)
  {
  }

  /** insert reports an error exactly when no block has a free slot and it may not or cannot append one; then nothing changes. */
  lemma InsertErrors(blocks: seq<RecBlock>, allocMap: seq<int>, p: seq<int>, relId: int, e: RelCatEntry, rec: seq<Attr>)
    requires InsertPre(blocks, allocMap, p, relId, e)
    ensures var o := InsertSpec(blocks, allocMap, p, relId, e, rec);
      var full := FreeBlockFrom(blocks, p, 0) == |p|;
      && (o.status == MaxRelations <==> full && relId == RELCAT_RELID)
      && (o.status == DiskFull <==> full && relId != RELCAT_RELID && forall b :: 0 <= b < |allocMap| ==> allocMap[b] != UNUSED_BLK)
      && (o.status != Success ==> o.blocks == blocks && o.allocMap == allocMap && o.entry == e)
      && (o.status == Success || o.status == MaxRelations || o.status == DiskFull)
  {
    var o := InsertSpec(blocks, allocMap, p, relId, e, rec);
    if FirstUnused(allocMap, 0) != -1 {
      assert allocMap[FirstUnused(allocMap, 0)] == UNUSED_BLK;
    }
  }

  /**
   * A new block is appended exactly when every block of the chain is full: it has blockType
   * REC, pblock -1, lblock the former tail, rblock -1, numEntries 0 before the record goes
   * in, and all slots but slot 0 free; the former tail (or firstBlk) and lastBlk point at it.
   */
  lemma InsertAppendsBlock(blocks: seq<RecBlock>, allocMap: seq<int>, p: seq<int>, relId: int, e: RelCatEntry, rec: seq<Attr>)
    requires InsertPre(blocks, allocMap, p, relId, e) && ChainOk(blocks, allocMap, p, e)
    ensures var o := InsertSpec(blocks, allocMap, p, relId, e, rec);
      o.status == Success && FreeBlockFrom(blocks, p, 0) == |p| ==>
        var f := o.at.block;
        && f == FirstUnused(allocMap, 0) && o.at.slot == 0 && o.chain == p + [f]
        && o.allocMap == allocMap[f := REC]
        && o.blocks[f].head == TailHead(Tail(p), e.numSlotsPerBlk, e.numAttrs).(numEntries := 1)
        && o.blocks[f].slotMap == seq(e.numSlotsPerBlk, s => s == 0)
        && (p != [] ==> o.blocks[Tail(p)].head.rblock == f && o.entry.firstBlk == e.firstBlk)
        && (p == [] ==> o.entry.firstBlk == f)
        && o.entry.lastBlk == f
  {
    var o := InsertSpec(blocks, allocMap, p, relId, e, rec);
    if o.status == Success && FreeBlockFrom(blocks, p, 0) == |p| {
      var f := o.at.block;
      if p != [] {
        assert allocMap[Tail(p)] != UNUSED_BLK;
      }
      assert o.blocks[f].slotMap == seq(e.numSlotsPerBlk, _ => false)[0 := true];
    }
  }

  /** Storing a record in a free slot of a chain block keeps the chain well formed, with one record more. */
  lemma PlacedKeepsChain(blocks: seq<RecBlock>, allocMap: seq<int>, p: seq<int>, e: RelCatEntry, i: int, s: int, rec: seq<Attr>)
    requires ChainOk(blocks, allocMap, p, e) && 0 <= i < |p|
    requires 0 <= s < |blocks[p[i]].slotMap| && !blocks[p[i]].slotMap[s]
    ensures ChainOk(Placed(blocks, p[i], s, rec), allocMap, p, e.(numRecs := e.numRecs + 1))
  {
    var b := p[i];
    var blocks' := Placed(blocks, b, s, rec);
    CountSet(blocks[b].slotMap, s);
    forall j | 0 <= j < |p| && j != i
      ensures blocks'[p[j]] == blocks[p[j]]
    {
      assert p[j] != b;
    }
    TotalOne(blocks, blocks', p, i);
  }

  /**
   * Appending the lowest unused block after the tail keeps the chain well formed: the new
   * block is allocated, empty, linked both ways and becomes lastBlk (and firstBlk of an
   * empty chain).
   */
  lemma LinkedKeepsChain(blocks: seq<RecBlock>, allocMap: seq<int>, p: seq<int>, e: RelCatEntry, f: int, n: nat)
    requires ChainOk(blocks, allocMap, p, e)
    requires 0 <= f < DISK_BLOCKS && allocMap[f] == UNUSED_BLK
    ensures var prev := Tail(p);
      ChainOk(Linked(blocks, f, prev, n, e.numAttrs), allocMap[f := REC], p + [f],
              e.(firstBlk := if prev == -1 then f else e.firstBlk, lastBlk := f))
  {
    forall j | 0 <= j < |p| ensures p[j] != f {
      assert allocMap[p[j]] != UNUSED_BLK;
    }
    LinkedShape(blocks, f, Tail(p), n, e.numAttrs);
    AppendKeepsChain(blocks, Linked(blocks, f, Tail(p), n, e.numAttrs), allocMap, p, e, f, n);
  }

  /**
   * The chain p + [f] is well formed in a store l that gives f an empty tail header after the
   * old tail, changes the old tail's rblock to f and leaves every other block as it was.
   */
  lemma AppendKeepsChain(blocks: seq<RecBlock>, l: seq<RecBlock>, allocMap: seq<int>, p: seq<int>, e: RelCatEntry, f: int, n: nat)
    requires ChainOk(blocks, allocMap, p, e)
    requires 0 <= f < DISK_BLOCKS && allocMap[f] == UNUSED_BLK && f !in p && |l| == DISK_BLOCKS
    requires l[f] == RecBlock(TailHead(Tail(p), n, e.numAttrs), seq(n, _ => false), map[])
    requires p != [] ==> l[Tail(p)] == blocks[Tail(p)].(head := blocks[Tail(p)].head.(rblock := f))
    requires forall b :: 0 <= b < DISK_BLOCKS && b != f && b != Tail(p) ==> l[b] == blocks[b]
    ensures ChainOk(l, allocMap[f := REC], p + [f], e.(firstBlk := if p == [] then f else e.firstBlk, lastBlk := f))
  {
    AppendPath(blocks, l, allocMap, p, e, f, n);
    AppendLinks(blocks, l, allocMap, p, e, f, n);
    AppendCounts(blocks, l, allocMap, p, e, f, n);
    TotalSame(blocks, l, p);
    CountAllFree(n);
    assert (p + [f])[..|p|] == p;
  }

  /** p + [f] is an rblock path without repeats in such a store l. */
  lemma AppendPath(blocks: seq<RecBlock>, l: seq<RecBlock>, allocMap: seq<int>, p: seq<int>, e: RelCatEntry, f: int, n: nat)
    requires ChainOk(blocks, allocMap, p, e)
    requires 0 <= f < DISK_BLOCKS && allocMap[f] == UNUSED_BLK && f !in p && |l| == DISK_BLOCKS
    requires l[f] == RecBlock(TailHead(Tail(p), n, e.numAttrs), seq(n, _ => false), map[])
    requires p != [] ==> l[Tail(p)] == blocks[Tail(p)].(head := blocks[Tail(p)].head.(rblock := f))
    requires forall b :: 0 <= b < DISK_BLOCKS && b != f && b != Tail(p) ==> l[b] == blocks[b]
    ensures PathFrom(l, p + [f], 0) && NoRepeats(p + [f])
  {
    var p' := p + [f];
    forall j | 0 <= j < |p'|
      ensures 0 <= p'[j] < DISK_BLOCKS && BlockOk(l[p'[j]])
      ensures j < |p'| - 1 ==> l[p'[j]].head.rblock == p'[j + 1]
    {
      if j < |p| {
        assert p'[j] == p[j];
      }
    }
  }

  /** Every lblock of p + [f] in such a store l points back. */
  lemma AppendLinks(blocks: seq<RecBlock>, l: seq<RecBlock>, allocMap: seq<int>, p: seq<int>, e: RelCatEntry, f: int, n: nat)
    requires ChainOk(blocks, allocMap, p, e)
    requires 0 <= f < DISK_BLOCKS && allocMap[f] == UNUSED_BLK && f !in p && |l| == DISK_BLOCKS
    requires l[f] == RecBlock(TailHead(Tail(p), n, e.numAttrs), seq(n, _ => false), map[])
    requires p != [] ==> l[Tail(p)] == blocks[Tail(p)].(head := blocks[Tail(p)].head.(rblock := f))
    requires forall b :: 0 <= b < DISK_BLOCKS && b != f && b != Tail(p) ==> l[b] == blocks[b]
    ensures l[(p + [f])[0]].head.lblock == -1
    ensures forall j :: 0 < j < |p + [f]| ==> l[(p + [f])[j]].head.lblock == (p + [f])[j - 1]
  {
    var p' := p + [f];
    forall j | 0 < j < |p'|
      ensures l[p'[j]].head.lblock == p'[j - 1]
    {
      if j < |p| {
        assert p'[j] == p[j] && p'[j - 1] == p[j - 1];
      }
    }
  }

  /** Every block of p + [f] in such a store l is allocated and counts its occupied slots. */
  lemma AppendCounts(blocks: seq<RecBlock>, l: seq<RecBlock>, allocMap: seq<int>, p: seq<int>, e: RelCatEntry, f: int, n: nat)
    requires ChainOk(blocks, allocMap, p, e)
    requires 0 <= f < DISK_BLOCKS && allocMap[f] == UNUSED_BLK && f !in p && |l| == DISK_BLOCKS
    requires l[f] == RecBlock(TailHead(Tail(p), n, e.numAttrs), seq(n, _ => false), map[])
    requires p != [] ==> l[Tail(p)] == blocks[Tail(p)].(head := blocks[Tail(p)].head.(rblock := f))
    requires forall b :: 0 <= b < DISK_BLOCKS && b != f && b != Tail(p) ==> l[b] == blocks[b]
    ensures forall j :: 0 <= j < |p + [f]| ==> allocMap[f := REC][(p + [f])[j]] != UNUSED_BLK
    ensures forall j :: 0 <= j < |p + [f]| ==> l[(p + [f])[j]].head.numEntries == Count(l[(p + [f])[j]].slotMap)
    ensures forall j :: 0 <= j < |p| ==> l[p[j]].slotMap == blocks[p[j]].slotMap
  {
    var p' := p + [f];
    forall j | 0 <= j < |p'|
      ensures allocMap[f := REC][p'[j]] != UNUSED_BLK
      ensures l[p'[j]].head.numEntries == Count(l[p'[j]].slotMap)
    {
      if j < |p| {
        assert p'[j] == p[j];
      } else {
        CountAllFree(n);
      }
    }
  }

  /** Linked changes block f to the new tail and of block prev only rblock. */
  lemma LinkedShape(blocks: seq<RecBlock>, f: int, prev: int, n: nat, numAttrs: int)
    requires |blocks| == DISK_BLOCKS && 0 <= f < DISK_BLOCKS && -1 <= prev < DISK_BLOCKS && prev != f
    ensures var l := Linked(blocks, f, prev, n, numAttrs);
      && l[f] == RecBlock(TailHead(prev, n, numAttrs), seq(n, _ => false), map[])
      && (prev != -1 ==> l[prev] == blocks[prev].(head := blocks[prev].head.(rblock := f)))
      && (forall b :: 0 <= b < DISK_BLOCKS && b != f && b != prev ==> l[b] == blocks[b])
  {
  }

  /** insert keeps a well-formed chain well formed, the record added to both counts. */
  lemma InsertKeepsChain(blocks: seq<RecBlock>, allocMap: seq<int>, p: seq<int>, relId: int, e: RelCatEntry, rec: seq<Attr>)
    requires InsertPre(blocks, allocMap, p, relId, e) && ChainOk(blocks, allocMap, p, e)
    ensures var o := InsertSpec(blocks, allocMap, p, relId, e, rec);
      o.status == Success ==> ChainOk(o.blocks, o.allocMap, o.chain, o.entry)
  {
    var o := InsertSpec(blocks, allocMap, p, relId, e, rec);
    var i := FreeBlockFrom(blocks, p, 0);
    if i < |p| {
      PlacedKeepsChain(blocks, allocMap, p, e, i, FreeSlotFrom(blocks[p[i]].slotMap, 0), rec);
    } else if o.status == Success {
      var f := FirstUnused(allocMap, 0);
      var prev := Tail(p);
      var e' := e.(firstBlk := if prev == -1 then f else e.firstBlk, lastBlk := f);
      var l := Linked(blocks, f, prev, e.numSlotsPerBlk, e.numAttrs);
      LinkedKeepsChain(blocks, allocMap, p, e, f, e.numSlotsPerBlk);
      PlacedKeepsChain(l, allocMap[f := REC], p + [f], e', |p|, 0, rec);
    }
  }
}
