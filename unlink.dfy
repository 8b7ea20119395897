/**
 * The deletions behind BlockAccess::deleteRelation: the release of a relation's record
 * chain, and the attribute-catalog loop that frees the slot of each record of the relation
 * and splices a block whose last entry goes out of the doubly-linked chain. Because a
 * freed slot lies behind the search cursor and a splice only rewrites the rblock of a block
 * already passed and the lblock of the next one, the scan ahead of the cursor goes on
 * reporting the records it would have reported before the loop started.
 */
module Unlink {
  import opened Defs
  import opened RecordStore
  import opened RelCache
  import opened Scan
  import opened Catalog

  /** What the attribute loop of deleteRelation updates: the disk, the allocation map and the relation cache. */
  datatype DelState = DelState(blocks: seq<RecBlock>, allocMap: seq<int>, table: seq<Option<RelCacheEntry>>)

  predicate StateOk(st: DelState) {
    && |st.blocks| == DISK_BLOCKS && |st.allocMap| == DISK_BLOCKS
    && EntryOf(st.table, RELCAT_RELID).Ok? && EntryOf(st.table, ATTRCAT_RELID).Ok?
  }

  /** The allocation map once every block of the chain d is released, in chain order. */
  function ReleaseAll(am: seq<int>, d: seq<int>): (r: seq<int>)
    requires |am| == DISK_BLOCKS && InDisk(d)
    ensures |r| == DISK_BLOCKS
    ensures forall b :: 0 <= b < DISK_BLOCKS ==> r[b] == if b in d then UNUSED_BLK else am[b]
    decreases |d|
  {
    if d == [] then am
    else
      var init := d[..|d| - 1];
      assert forall b :: b in d <==> b in init || b == d[|d| - 1] by {
        assert d == init + [d[|d| - 1]];
      }
      ReleaseAll(am, init)[d[|d| - 1] := UNUSED_BLK]
  }

  /**
   * The splice of block b, whose header already counts no entry: its left block's rblock
   * becomes b's rblock; the right block's lblock becomes b's lblock or, when b was the tail,
   * the attribute catalog's lastBlk becomes b's lblock; b is released. None when a link of
   * b leads outside the disk, where the splice would write to no block.
   */
  function Splice(st: DelState, b: int): (r: Option<DelState>)
    requires StateOk(st) && 0 <= b < DISK_BLOCKS
    ensures r.Some? ==> StateOk(r.value)
  {
    var hd := st.blocks[b].head;
    if !(0 <= hd.lblock < DISK_BLOCKS && -1 <= hd.rblock < DISK_BLOCKS) then None
    else
      var lb := st.blocks[hd.lblock];
      var bl := st.blocks[hd.lblock := lb.(head := lb.head.(rblock := hd.rblock))];
      var am := st.allocMap[b := UNUSED_BLK];
      if hd.rblock != -1 then
        var rb := bl[hd.rblock];
        Some(DelState(bl[hd.rblock := rb.(head := rb.head.(lblock := hd.lblock))], am, st.table))
      else
        var e := st.table[ATTRCAT_RELID].value.relCatEntry;
        Some(DelState(bl, am, WithRelCatEntry(st.table, ATTRCAT_RELID, e.(lastBlk := hd.lblock))))
  }

  /** Block b with slot `slot` marked free and numEntries one lower, as the attribute loop writes them back. */
  function Cleared(st: DelState, b: int, slot: int): (r: DelState)
    requires StateOk(st) && 0 <= b < DISK_BLOCKS && 0 <= slot < |st.blocks[b].slotMap|
    ensures StateOk(r) && r.allocMap == st.allocMap && r.table == st.table
    ensures !Used(r.blocks[b], slot) && |r.blocks[b].slotMap| == |st.blocks[b].slotMap|
    ensures r.blocks[b].head.numEntries == st.blocks[b].head.numEntries - 1
    ensures r.blocks[b].head.(numEntries := st.blocks[b].head.numEntries) == st.blocks[b].head
    ensures r.blocks[b].records == st.blocks[b].records
    ensures forall s :: 0 <= s < |st.blocks[b].slotMap| && s != slot ==> r.blocks[b].slotMap[s] == st.blocks[b].slotMap[s]
    ensures forall c :: 0 <= c < DISK_BLOCKS && c != b ==> r.blocks[c] == st.blocks[c]
  {
    var blk := st.blocks[b];
    st.(blocks := st.blocks[b := blk.(slotMap := blk.slotMap[slot := false], head := blk.head.(numEntries := blk.head.numEntries - 1))])
  }

  /**
   * One pass of the attribute loop on the record in slot `slot` of block b: the slot is
   * marked free, numEntries goes one down and, when it reaches 0, b is spliced out. None
   * when the slot lies outside a well-formed slot map or the splice leaves the disk.
   */
  function EraseAttr(st: DelState, b: int, slot: int): (r: Option<DelState>)
    requires StateOk(st) && 0 <= b < DISK_BLOCKS
    ensures r.Some? ==> StateOk(r.value)
  {
    var blk := st.blocks[b];
    if !(BlockOk(blk) && 0 <= slot < |blk.slotMap|) then None
    else if blk.head.numEntries - 1 == 0 then Splice(Cleared(st, b, slot), b)
    else Some(Cleared(st, b, slot))
  }

  /**
   * The attribute loop over the places h of the path q, in order: before each pass the
   * cursor of the attribute catalog moves onto the place, as linearSearch moves it.
   */
  function EraseAll(st: DelState, q: seq<int>, h: seq<Pos>): (r: Option<DelState>)
    requires StateOk(st) && InDisk(q) && OnPath(q, h)
    ensures r.Some? ==> StateOk(r.value)
    decreases |h|
  {
    if h == [] then Some(st)
    else
      var prev := EraseAll(st, q, h[..|h| - 1]);
      if prev.None? then None
      else
        var x := h[|h| - 1];
        var s := prev.value;
        EraseAttr(s.(table := WithSearchIndex(s.table, ATTRCAT_RELID, RecId(q[x.idx], x.slot))), q[x.idx], x.slot)
  }

  /** One more pass of the loop is one more EraseAttr. */
  lemma EraseAllNext(st: DelState, q: seq<int>, h: seq<Pos>, n: nat)
    requires StateOk(st) && InDisk(q) && OnPath(q, h) && n < |h|
    ensures var prev := EraseAll(st, q, h[..n]);
      EraseAll(st, q, h[..n + 1]) ==
        if prev.None? then None
        else EraseAttr(prev.value.(table := WithSearchIndex(prev.value.table, ATTRCAT_RELID, RecId(q[h[n].idx], h[n].slot))), q[h[n].idx], h[n].slot)
  {
    assert h[..n + 1][..n] == h[..n];
  }

  /**
   * The attribute catalog as deleteRelation expects it: the chain q is a doubly-linked
   * list (each block's lblock is the block before it) and every block's numEntries counts
   * its occupied slots.
   */
  predicate DoublyLinked(bl: seq<RecBlock>, q: seq<int>) {
    && PathFrom(bl, q, 0) && NoRepeats(q)
    && (forall j :: 0 < j < |q| ==> bl[q[j]].head.lblock == q[j - 1])
    && (forall j :: 0 <= j < |q| ==> bl[q[j]].head.numEntries == Count(bl[q[j]].slotMap))
  }

  /** The first block of q holds an occupied slot the scan with condition c passes over, so it never empties. */
  predicate FirstKept(bl: seq<RecBlock>, q: seq<int>, c: Cond)
    requires |bl| == DISK_BLOCKS && InDisk(q)
  {
    q != [] ==> exists s :: 0 <= s < |bl[q[0]].slotMap| && Used(bl[q[0]], s) && !Matches(bl[q[0]], s, c)
  }

  /**
   * Block j of the chain q as the attribute loop expects to find it: well formed, its
   * numEntries counting its occupied slots, its lblock pointing back into the part of q
   * before it, and its rblock the next block of q, or -1 at the end.
   */
  predicate BlockAhead(bl: seq<RecBlock>, q: seq<int>, j: int)
    requires |bl| == DISK_BLOCKS && InDisk(q) && 0 <= j < |q|
  {
    var hd := bl[q[j]].head;
    && BlockOk(bl[q[j]])
    && hd.numEntries == Count(bl[q[j]].slotMap)
    && (0 < j ==> hd.lblock in q[..j])
    && hd.rblock == (if j + 1 < |q| then q[j + 1] else -1)
  }

  /** The chain q from index k on, as the attribute loop keeps it; the first block keeps its slot while the loop is in it. */
  predicate AheadOk(bl: seq<RecBlock>, q: seq<int>, k: int, c: Cond) {
    && |bl| == DISK_BLOCKS && InDisk(q) && NoRepeats(q) && 0 <= k <= |q|
    && (forall j :: k <= j < |q| ==> BlockAhead(bl, q, j))
    && (k == 0 ==> FirstKept(bl, q, c))
  }

  /** The chain the loop keeps is still linked by rblock from k on. */
  lemma AheadPath(bl: seq<RecBlock>, q: seq<int>, k: int, c: Cond)
    requires AheadOk(bl, q, k, c)
    ensures PathFrom(bl, q, k)
  {
    forall i | k <= i < |q| ensures BlockOk(bl[q[i]]) && bl[q[i]].head.rblock == (if i + 1 < |q| then q[i + 1] else -1) {
      assert BlockAhead(bl, q, i);
    }
    if k < |q| {
      assert BlockAhead(bl, q, |q| - 1);
    }
  }

  /** A doubly-linked chain whose first block is kept is in shape for the loop from its start. */
  lemma AheadOkInit(bl: seq<RecBlock>, q: seq<int>, c: Cond)
    requires DoublyLinked(bl, q) && FirstKept(bl, q, c)
    ensures AheadOk(bl, q, 0, c)
  {
    forall j | 0 <= j < |q| ensures BlockAhead(bl, q, j) {
      if 0 < j {
        assert q[..j][j - 1] == q[j - 1];
      }
    }
  }

  /** The shape the loop keeps from index k on holds from any later index as well. */
  lemma AheadOkLater(bl: seq<RecBlock>, q: seq<int>, k: int, k': int, c: Cond)
    requires AheadOk(bl, q, k, c) && k <= k' <= |q| && (k' == 0 ==> k == 0)
    ensures AheadOk(bl, q, k', c)
  {
  }

  /** A block with the same slot map, records and number of slots looks the same to every scan. */
  lemma SameShapeSameFrom(b1: seq<RecBlock>, b2: seq<RecBlock>, b: int, c: Cond)
    requires |b1| == DISK_BLOCKS && |b2| == DISK_BLOCKS && 0 <= b < DISK_BLOCKS
    requires b1[b].slotMap == b2[b].slotMap && b1[b].records == b2[b].records && b1[b].head.numSlots == b2[b].head.numSlots
    ensures SameFrom(b1, b2, b, 0, c)
  {
    forall s | 0 <= s < b1[b].head.numSlots ensures Matches(b1[b], s, c) == Matches(b2[b], s, c) {
      assert RecordOf(b1[b], s) == RecordOf(b2[b], s);
    }
  }

  /**
   * Freeing a matching occupied slot of the block at index k of q keeps the shape from k
   * on, leaves the block's count at least one when it is the first block of q, and changes
   * nothing a scan from the next slot on looks at.
   */
  lemma ClearStep(st: DelState, q: seq<int>, k: int, slot: int, c: Cond)
    requires StateOk(st) && AheadOk(st.blocks, q, k, c) && k < |q|
    requires 0 <= slot < st.blocks[q[k]].head.numSlots && Matches(st.blocks[q[k]], slot, c)
    ensures var w := Cleared(st, q[k], slot).blocks;
      && AheadOk(w, q, k, c)
      && (k == 0 ==> w[q[k]].head.numEntries != 0)
      && SameFrom(st.blocks, w, q[k], slot + 1, c)
      && (forall j :: k < j < |q| ==> w[q[j]] == st.blocks[q[j]])
      && forall x :: 0 <= x < DISK_BLOCKS && x != q[k] ==> w[x] == st.blocks[x]
  {
    var b := q[k];
    var blk := st.blocks[b];
    var w := Cleared(st, b, slot).blocks;
    assert BlockAhead(st.blocks, q, k);
    CountClear(blk.slotMap, slot);
    assert BlockAhead(w, q, k);
    forall j | k < j < |q| ensures w[q[j]] == st.blocks[q[j]] && BlockAhead(w, q, j) {
      assert q[j] != b;
      assert BlockAhead(st.blocks, q, j);
    }
    if k == 0 {
      ClearKeepsFirst(st, q, slot, c);
    }
    ClearSameFrom(st, b, slot, c);
  }

  /** Freeing a matching slot of the first block of q keeps the slot FirstKept names, so the block does not empty. */
  lemma ClearKeepsFirst(st: DelState, q: seq<int>, slot: int, c: Cond)
    requires StateOk(st) && InDisk(q) && q != [] && FirstKept(st.blocks, q, c)
    requires 0 <= slot < |st.blocks[q[0]].slotMap| && Matches(st.blocks[q[0]], slot, c)
    ensures var w := Cleared(st, q[0], slot).blocks;
      FirstKept(w, q, c) && Count(w[q[0]].slotMap) != 0
  {
    var b := q[0];
    var blk := st.blocks[b];
    var w := Cleared(st, b, slot).blocks;
    var s0 :| 0 <= s0 < |blk.slotMap| && Used(blk, s0) && !Matches(blk, s0, c);
    assert s0 != slot;
    assert RecordOf(w[b], s0) == RecordOf(blk, s0);
    assert Used(w[b], s0) && !Matches(w[b], s0, c);
    CountPositive(w[b].slotMap, s0);
  }

  /** Freeing a slot changes nothing a scan from the next slot on looks at. */
  lemma ClearSameFrom(st: DelState, b: int, slot: int, c: Cond)
    requires StateOk(st) && 0 <= b < DISK_BLOCKS && BlockOk(st.blocks[b]) && 0 <= slot < st.blocks[b].head.numSlots
    ensures SameFrom(st.blocks, Cleared(st, b, slot).blocks, b, slot + 1, c)
  {
    var blk := st.blocks[b];
    var w := Cleared(st, b, slot).blocks;
    forall s | slot + 1 <= s < blk.head.numSlots ensures Matches(blk, s, c) == Matches(w[b], s, c) {
      assert RecordOf(w[b], s) == RecordOf(blk, s);
    }
  }

  /**
   * The splice of the emptied block at index k > 0: its lblock is a block before it, its
   * rblock the next block of q or -1, so the splice is defined, keeps the shape from k on
   * and leaves every block reachable from k as a scan sees it.
   */
  lemma SpliceStep(st: DelState, q: seq<int>, k: int, c: Cond)
    requires StateOk(st) && AheadOk(st.blocks, q, k, c) && 0 < k < |q|
    ensures var r := Splice(st, q[k]);
      && r.Some?
      && AheadOk(r.value.blocks, q, k, c)
      && (forall j :: k <= j < |q| ==> SameFrom(st.blocks, r.value.blocks, q[j], 0, c))
      && forall x :: 0 <= x < DISK_BLOCKS && x !in q ==> r.value.blocks[x] == st.blocks[x]
  {
    var b := q[k];
    assert BlockAhead(st.blocks, q, k);
    var hd := st.blocks[b].head;
    var L := hd.lblock;
    var iL :| 0 <= iL < k && q[..k][iL] == L;
    assert q[iL] == L;
    var r := Splice(st, b);
    var w := r.value.blocks;
    forall j | k <= j < |q| ensures BlockAhead(w, q, j) && SameFrom(st.blocks, w, q[j], 0, c) {
      assert q[j] != L;
      assert BlockAhead(st.blocks, q, j);
      assert w[q[j]].slotMap == st.blocks[q[j]].slotMap && w[q[j]].records == st.blocks[q[j]].records;
      if j == k + 1 {
        assert w[q[j]].head == st.blocks[q[j]].head.(lblock := L);
        assert q[..j][iL] == L;
      } else {
        assert q[j] != hd.rblock;
        assert w[q[j]] == st.blocks[q[j]];
      }
      SameShapeSameFrom(st.blocks, w, q[j], c);
    }
    assert L in q;
    assert hd.rblock != -1 ==> hd.rblock in q;
  }

  /**
   * A pass of the loop on a matching occupied slot of the block at index k of q is
   * defined, keeps the shape from k on, and changes nothing a scan from the next slot on
   * looks at.
   */
  lemma EraseStep(st: DelState, q: seq<int>, k: int, slot: int, c: Cond)
    requires StateOk(st) && AheadOk(st.blocks, q, k, c) && k < |q|
    requires 0 <= slot < st.blocks[q[k]].head.numSlots && Matches(st.blocks[q[k]], slot, c)
    ensures var r := EraseAttr(st, q[k], slot);
      && r.Some?
      && AheadOk(r.value.blocks, q, k, c)
      && SameScan(r.value.blocks, st.blocks, q, k, slot + 1, c)
      && forall x :: 0 <= x < DISK_BLOCKS && x !in q ==> r.value.blocks[x] == st.blocks[x]
  {
    var st1 := Cleared(st, q[k], slot);
    ClearStep(st, q, k, slot, c);
    assert BlockAhead(st.blocks, q, k);
    if st.blocks[q[k]].head.numEntries - 1 == 0 {
      SpliceStep(st1, q, k, c);
      var w2 := Splice(st1, q[k]).value.blocks;
      HitsFrame(st.blocks, w2, q, k, slot + 1, c);
    } else {
      forall j | k < j < |q| ensures SameFrom(st.blocks, st1.blocks, q[j], 0, c) {
        assert st1.blocks[q[j]] == st.blocks[q[j]];
      }
      HitsFrame(st.blocks, st1.blocks, q, k, slot + 1, c);
    }
  }

  /**
   * What one pass of the attribute loop does, when defined: the slot is free and the block
   * counts one entry less; when that leaves no entry, the block is released, its left
   * block's rblock is its rblock, and the right block's lblock is its lblock or, for the
   * tail, the attribute catalog's lastBlk is its lblock. Every other block is untouched.
   */
  lemma EraseAttrEffect(st: DelState, b: int, slot: int)
    requires StateOk(st) && 0 <= b < DISK_BLOCKS && EraseAttr(st, b, slot).Some?
    ensures var r := EraseAttr(st, b, slot).value;
      var hd := st.blocks[b].head;
      var n := hd.numEntries - 1;
      && r.blocks[b].slotMap == st.blocks[b].slotMap[slot := false]
      && r.blocks[b].records == st.blocks[b].records
      && r.blocks[b].head == hd.(numEntries := n)
      && (n != 0 ==> r.blocks == st.blocks[b := r.blocks[b]] && r.allocMap == st.allocMap && r.table == st.table)
      && (n == 0 ==> 0 <= hd.lblock < DISK_BLOCKS && hd.lblock != b ==> r.blocks[hd.lblock].head.rblock == hd.rblock)
      && (n == 0 ==> r.allocMap == st.allocMap[b := UNUSED_BLK])
      && (n == 0 && hd.rblock != -1 && hd.rblock != b ==> r.blocks[hd.rblock].head.lblock == hd.lblock && r.table == st.table)
      && (n == 0 && hd.rblock == -1 ==>
            r.table == WithRelCatEntry(st.table, ATTRCAT_RELID, st.table[ATTRCAT_RELID].value.relCatEntry.(lastBlk := hd.lblock)))
      && (n == 0 ==> forall c :: 0 <= c < DISK_BLOCKS && c != b && c != hd.lblock && c != hd.rblock ==> r.blocks[c] == st.blocks[c])
  {
  }

  /** A pass of the attribute loop leaves the attribute catalog's cursor and first block alone. */
  lemma EraseAttrCursor(st: DelState, b: int, slot: int)
    requires StateOk(st) && 0 <= b < DISK_BLOCKS && EraseAttr(st, b, slot).Some?
    ensures var t := EraseAttr(st, b, slot).value.table;
      && t[ATTRCAT_RELID].value.searchIndex == st.table[ATTRCAT_RELID].value.searchIndex
      && t[ATTRCAT_RELID].value.relCatEntry.firstBlk == st.table[ATTRCAT_RELID].value.relCatEntry.firstBlk
  {
  }

  /**
   * What a pass of the attribute loop leaves alone, whatever the chain looks like: the slot
   * it erases is free afterwards and no slot becomes occupied; records, slot-map lengths,
   * the relation catalog's cache entry and both numRecs stay; only block b can be released,
   * and a released block stays released.
   */
  lemma EraseAttrKeeps(st: DelState, b: int, slot: int)
    requires StateOk(st) && 0 <= b < DISK_BLOCKS && EraseAttr(st, b, slot).Some?
    ensures var r := EraseAttr(st, b, slot).value;
      && !Used(r.blocks[b], slot)
      && (forall x, s :: 0 <= x < DISK_BLOCKS && Used(r.blocks[x], s) ==> Used(st.blocks[x], s))
      && (forall x :: 0 <= x < DISK_BLOCKS ==> r.blocks[x].records == st.blocks[x].records)
      && (forall x :: 0 <= x < DISK_BLOCKS && x != b ==> r.allocMap[x] == st.allocMap[x])
      && (forall x :: 0 <= x < DISK_BLOCKS && st.allocMap[x] == UNUSED_BLK ==> r.allocMap[x] == UNUSED_BLK)
      && r.table[RELCAT_RELID] == st.table[RELCAT_RELID]
      && r.table[ATTRCAT_RELID].value.relCatEntry.numRecs == st.table[ATTRCAT_RELID].value.relCatEntry.numRecs
  {
    var r := EraseAttr(st, b, slot).value;
    var st1 := Cleared(st, b, slot);
    forall x, s | 0 <= x < DISK_BLOCKS && Used(r.blocks[x], s) ensures Used(st.blocks[x], s) {
      assert r.blocks[x].slotMap == st1.blocks[x].slotMap;
    }
  }

  /**
   * What the whole attribute loop leaves alone: every place of h is free afterwards, no
   * slot becomes occupied, records, the relation catalog's cache entry and the attribute
   * catalog's numRecs stay, only blocks of q can be released, and a released block stays
   * released.
   */
  lemma {:induction false} EraseAllKeeps(st: DelState, q: seq<int>, h: seq<Pos>)
    requires StateOk(st) && InDisk(q) && OnPath(q, h) && EraseAll(st, q, h).Some?
    ensures var r := EraseAll(st, q, h).value;
      && (forall j :: 0 <= j < |h| ==> !Used(r.blocks[q[h[j].idx]], h[j].slot))
      && (forall x, s :: 0 <= x < DISK_BLOCKS && Used(r.blocks[x], s) ==> Used(st.blocks[x], s))
      && (forall x :: 0 <= x < DISK_BLOCKS ==> r.blocks[x].records == st.blocks[x].records)
      && (forall x :: 0 <= x < DISK_BLOCKS && x !in q ==> r.allocMap[x] == st.allocMap[x])
      && (forall x :: 0 <= x < DISK_BLOCKS && st.allocMap[x] == UNUSED_BLK ==> r.allocMap[x] == UNUSED_BLK)
      && r.table[RELCAT_RELID] == st.table[RELCAT_RELID]
      && r.table[ATTRCAT_RELID].value.relCatEntry.numRecs == st.table[ATTRCAT_RELID].value.relCatEntry.numRecs
    decreases |h|
  {
    if h != [] {
      var n := |h| - 1;
      var init := h[..n];
      var x := h[n];
      EraseAllKeeps(st, q, init);
      var p := EraseAll(st, q, init).value;
      var p1 := p.(table := WithSearchIndex(p.table, ATTRCAT_RELID, RecId(q[x.idx], x.slot)));
      EraseAttrKeeps(p1, q[x.idx], x.slot);
      var r := EraseAll(st, q, h).value;
      assert r == EraseAttr(p1, q[x.idx], x.slot).value;
      forall j | 0 <= j < |h| ensures !Used(r.blocks[q[h[j].idx]], h[j].slot) {
        if j < n {
          assert h[j] == init[j];
        }
      }
    }
  }

  /** Erasing every hit of a scan of the chain q leaves no slot on q that satisfies the scan's condition. */
  lemma EraseAllClears(st: DelState, q: seq<int>, c: Cond)
    requires StateOk(st) && InDisk(q) && PathFrom(st.blocks, q, 0)
    requires OnPath(q, Hits(st.blocks, q, 0, 0, c)) && EraseAll(st, q, Hits(st.blocks, q, 0, 0, c)).Some?
    ensures var w := EraseAll(st, q, Hits(st.blocks, q, 0, 0, c)).value;
      forall j, s :: 0 <= j < |q| ==> !Matches(w.blocks[q[j]], s, c)
  {
    var h := Hits(st.blocks, q, 0, 0, c);
    var w := EraseAll(st, q, h).value;
    EraseAllKeeps(st, q, h);
    forall j, s | 0 <= j < |q| ensures !Matches(w.blocks[q[j]], s, c) {
      if Matches(w.blocks[q[j]], s, c) {
        assert RecordOf(w.blocks[q[j]], s) == RecordOf(st.blocks[q[j]], s);
        assert HitAfter(st.blocks, q, 0, 0, c, Pos(j, s));
        HitsComplete(st.blocks, q, 0, 0, c, Pos(j, s));
      }
    }
  }
}
