/**
 * The block-access layer (BlockAccess.cpp) over the record-level view of the disk: the
 * cursor-driven linear search, search, insert with chain extension, the two catalog
 * renames and deleteRelation with its splice of emptied attribute-catalog blocks.
 */
module BlockAccess {
  import opened Defs
  import opened RecordStore
  import opened RelCache
  import opened AttrCache
  import opened Scan
  import opened Chain
  import opened Catalog
  import opened Unlink
  import BlockBuffer

  type RelTable = seq<Option<RelCacheEntry>>
  type AttrTable = seq<Option<seq<AttrCacheEntry>>>

  /** The condition linearSearch evaluates: offset and type of attrName taken from the attribute cache. */
  function SearchCond(ac: AttrTable, relId: int, attrName: string, val: Attr, op: Op): Cond
    requires NamedEntry(ac, relId, attrName).Ok?
  {
    var e := NamedEntry(ac, relId, attrName).value;
    Cond(e.offset, e.attrType, val, op)
  }

  /**
   * Index k of the path p is where a scan with this cursor begins: the first block when the
   * cursor is {-1, -1}, nowhere (the end of the path) when the cursor's block is -1, and
   * otherwise the cursor's block.
   */
  predicate StartsAt(p: seq<int>, k: int, cursor: RecId, firstBlk: int) {
    if cursor == NO_REC then k == 0 && (if firstBlk == -1 then p == [] else p != [] && p[0] == firstBlk)
    else if cursor.block == -1 then k == |p|
    else 0 <= k < |p| && p[k] == cursor.block && cursor.slot >= -1
  }

  /** The slot a scan with this cursor begins at: 0 for a fresh scan, else the one after the cursor. */
  function StartSlot(cursor: RecId): nat {
    if cursor == NO_REC || cursor.block == -1 || cursor.slot < 0 then 0 else cursor.slot + 1
  }

  /** Relation relId is open and p, from index k, is the chain its cursor resumes on. */
  predicate ScanFrom(t: RelTable, relId: int, blocks: seq<RecBlock>, p: seq<int>, k: int) {
    && EntryOf(t, relId).Ok?
    && PathFrom(blocks, p, k)
    && StartsAt(p, k, t[relId].value.searchIndex, t[relId].value.relCatEntry.firstBlk)
  }

  /** The hits the next linearSearch calls on relation relId report, in order. */
  function NextHits(t: RelTable, ac: AttrTable, relId: int, attrName: string, val: Attr, op: Op,
                    blocks: seq<RecBlock>, p: seq<int>, k: int): seq<Pos>
    requires ScanFrom(t, relId, blocks, p, k) && NamedEntry(ac, relId, attrName).Ok?
  {
    Hits(blocks, p, k, StartSlot(t[relId].value.searchIndex), SearchCond(ac, relId, attrName, val, op))
  }

  /**
   * The condition the loop of linearSearch evaluates. getAttrCatEntry's status is ignored
   * there: when the cache has no attribute attrName the entry it was to fill stays as
   * declared, uninitialised, and `stale` stands for what it holds.
   */
  function ScanCond(ac: AttrTable, relId: int, attrName: string, val: Attr, op: Op, stale: AttrCatEntry): (c: Cond)
    ensures NamedEntry(ac, relId, attrName).Ok? ==> c == SearchCond(ac, relId, attrName, val, op)
    ensures NamedEntry(ac, relId, attrName).Err? ==> c == Cond(stale.offset, stale.attrType, val, op)
  {
    if NamedEntry(ac, relId, attrName).Ok? then SearchCond(ac, relId, attrName, val, op)
    else Cond(stale.offset, stale.attrType, val, op)
  }

  /** The hits the next linearSearch calls report, whether or not the cache has attrName. */
  function ScanHits(t: RelTable, ac: AttrTable, relId: int, attrName: string, val: Attr, op: Op, stale: AttrCatEntry,
                    blocks: seq<RecBlock>, p: seq<int>, k: int): (h: seq<Pos>)
    requires ScanFrom(t, relId, blocks, p, k)
    ensures NamedEntry(ac, relId, attrName).Ok? ==> h == NextHits(t, ac, relId, attrName, val, op, blocks, p, k)
  {
    Hits(blocks, p, k, StartSlot(t[relId].value.searchIndex), ScanCond(ac, relId, attrName, val, op, stale))
  }

  /**
   * The attribute entry the callers inside this layer hand linearSearch for the one it
   * leaves uninitialised; they search attributes the cache holds, so it is never read.
   */
  const UNSET_ENTRY: AttrCatEntry := AttrCatEntry("", "", NUMBER, false, -1, -1)

  /** The record id of a scan place. */
  function RecIdOf(p: seq<int>, q: Pos): RecId
    requires 0 <= q.idx < |p|
  {
    RecId(p[q.idx], q.slot)
  }

  /**
   * What linearSearch leaves behind: with no hit the answer {-1, -1} and the cache as it was;
   * otherwise the first hit, remembered as the relation's cursor.
   */
  predicate SearchOutcome(t: RelTable, t': RelTable, relId: int, p: seq<int>, h: seq<Pos>, r: RecId)
    requires EntryOf(t, relId).Ok?
    requires forall i :: 0 <= i < |h| ==> 0 <= h[i].idx < |p|
  {
    if h == [] then r == NO_REC && t' == t
    else r == RecIdOf(p, h[0]) && t' == WithSearchIndex(t, relId, r)
  }

  /**
   * After a linearSearch hit the cursor sits on it, and the next calls report the remaining
   * hits, so consecutive calls enumerate the hits of the scan once each, in scan order.
   */
  lemma ResumeAfterHit(t: RelTable, ac: AttrTable, relId: int, attrName: string, val: Attr, op: Op,
                       blocks: seq<RecBlock>, p: seq<int>, k: int)
    requires ScanFrom(t, relId, blocks, p, k) && NamedEntry(ac, relId, attrName).Ok?
    requires NextHits(t, ac, relId, attrName, val, op, blocks, p, k) != []
    ensures var h := NextHits(t, ac, relId, attrName, val, op, blocks, p, k);
      var t' := WithSearchIndex(t, relId, RecIdOf(p, h[0]));
      && 0 <= h[0].slot < blocks[p[h[0].idx]].head.numSlots
      && Matches(blocks[p[h[0].idx]], h[0].slot, SearchCond(ac, relId, attrName, val, op))
      && ScanFrom(t', relId, blocks, p, h[0].idx)
      && NextHits(t', ac, relId, attrName, val, op, blocks, p, h[0].idx) == h[1..]
  {
    var c := SearchCond(ac, relId, attrName, val, op);
    var from := StartSlot(t[relId].value.searchIndex);
    HitsFirst(blocks, p, k, from, c);
    HitsResume(blocks, p, k, from, c);
  }

  /** The relation catalog: the single block RELCAT_BLOCK. */
  const RELCAT_CHAIN: seq<int> := [RELCAT_BLOCK]

  /**
   * The catalogs as the two renames find them: both catalog relations open, the relation
   * catalog the single block RELCAT_BLOCK, the attribute catalog the chain q without
   * repeated blocks, and attribute "RelName" in the attribute cache of both.
   */
  predicate CatalogsOk(t: RelTable, ac: AttrTable, blocks: seq<RecBlock>, q: seq<int>) {
    && EntryOf(t, RELCAT_RELID).Ok? && EntryOf(t, ATTRCAT_RELID).Ok?
    && t[RELCAT_RELID].value.relCatEntry.firstBlk == RELCAT_BLOCK && PathFrom(blocks, RELCAT_CHAIN, 0)
    && PathFrom(blocks, q, 0) && NoRepeats(q)
    && t[ATTRCAT_RELID].value.relCatEntry.firstBlk == (if q == [] then -1 else q[0])
    && NamedEntry(ac, RELCAT_RELID, RELCAT_ATTR_RELNAME).Ok?
    && NamedEntry(ac, ATTRCAT_RELID, RELCAT_ATTR_RELNAME).Ok?
  }

  /** The relation-catalog records whose RelName equals `name`, in slot order. */
  function RelHits(ac: AttrTable, blocks: seq<RecBlock>, name: string): seq<Pos>
    requires NamedEntry(ac, RELCAT_RELID, RELCAT_ATTR_RELNAME).Ok? && |blocks| == DISK_BLOCKS
  {
    Hits(blocks, RELCAT_CHAIN, 0, 0, SearchCond(ac, RELCAT_RELID, RELCAT_ATTR_RELNAME, Str(name), EQ))
  }

  /** The attribute-catalog records whose RelName equals `name`, in chain order. */
  function AttrHits(ac: AttrTable, blocks: seq<RecBlock>, q: seq<int>, name: string): (h: seq<Pos>)
    requires NamedEntry(ac, ATTRCAT_RELID, RELCAT_ATTR_RELNAME).Ok? && |blocks| == DISK_BLOCKS && InDisk(q)
    ensures OnPath(q, h)
  {
    Hits(blocks, q, 0, 0, SearchCond(ac, ATTRCAT_RELID, RELCAT_ATTR_RELNAME, Str(name), EQ))
  }

  /** What a catalog operation decides: its status, the new store and the new relation cache. */
  datatype CatalogOutcome = CatalogOutcome(status: Status, blocks: seq<RecBlock>, table: RelTable)

  /** The relation catalog with the RelName of the record in `slot` set to newName. */
  function RenamedRelCat(blocks: seq<RecBlock>, slot: int, newName: string): seq<RecBlock>
    requires |blocks| == DISK_BLOCKS
  {
    WithField(blocks, RELCAT_BLOCK, slot, RELCAT_REL_NAME_INDEX, Str(newName))
  }

  /** The attribute count of the relation-catalog record in `slot`. */
  function NumAttrsAt(blocks: seq<RecBlock>, slot: int): int
    requires |blocks| == DISK_BLOCKS
  {
    AsNum(Field(RecordOf(blocks[RELCAT_BLOCK], slot), RELCAT_NO_ATTRIBUTES_INDEX))
  }

  /**
   * renameRelation relies on the attribute catalog holding, once the relation-catalog record
   * is renamed, at least as many records of oldName as that record's attribute count.
   */
  predicate RenameRelationPre(t: RelTable, ac: AttrTable, blocks: seq<RecBlock>, q: seq<int>, oldName: string, newName: string)
    requires CatalogsOk(t, ac, blocks, q)
  {
    var ho := RelHits(ac, blocks, oldName);
    RelHits(ac, blocks, newName) == [] && ho != [] ==>
      NumAttrsAt(blocks, ho[0].slot) <= |AttrHits(ac, RenamedRelCat(blocks, ho[0].slot, newName), q, oldName)|
  }

  /**
   * renameRelation: E_RELEXIST when a relation-catalog record is named newName,
   * E_RELNOTEXIST when none is named oldName; otherwise the first record named oldName gets
   * newName, and so do the first numAttrs attribute-catalog records of oldName. Each
   * search moves the cursor of its catalog as linearSearch moves it.
   */
  function RenameRelationSpec(t: RelTable, ac: AttrTable, blocks: seq<RecBlock>, q: seq<int>, oldName: string, newName: string): CatalogOutcome
    requires CatalogsOk(t, ac, blocks, q)
  {
    var t0 := WithSearchIndex(t, RELCAT_RELID, NO_REC);
    var hn := RelHits(ac, blocks, newName);
    if hn != [] then CatalogOutcome(RelExist, blocks, WithSearchIndex(t0, RELCAT_RELID, RecId(RELCAT_BLOCK, hn[0].slot)))
    else
      var ho := RelHits(ac, blocks, oldName);
      if ho == [] then CatalogOutcome(RelNotExist, blocks, t0)
      else
        var slot := ho[0].slot;
        RenameFoundSpec(WithSearchIndex(t0, RELCAT_RELID, RecId(RELCAT_BLOCK, slot)), ac, blocks, q, slot, oldName, newName)
  }

  /**
   * The success path of renameRelation once the relation-catalog record in `slot` is found:
   * it gets RelName newName, and so do the first numAttrs attribute-catalog records of
   * oldName (all of them when there are fewer), whose scan leaves the cursor on the last.
   */
  function RenameFoundSpec(t: RelTable, ac: AttrTable, blocks: seq<RecBlock>, q: seq<int>, slot: int, oldName: string, newName: string): CatalogOutcome
    requires CatalogsOk(t, ac, blocks, q)
  {
    var b1 := RenamedRelCat(blocks, slot, newName);
    var n := NumAttrsAt(blocks, slot);
    var h := AttrHits(ac, b1, q, oldName);
    var m := if n <= 0 then 0 else if n <= |h| then n else |h|;
    CatalogOutcome(Success, RenameFields(b1, q, h[..m], ATTRCAT_REL_NAME_INDEX, Str(newName)),
                   CursorAfter(WithSearchIndex(t, ATTRCAT_RELID, NO_REC), q, h, m))
  }

  /** The attribute-catalog cursor once the first i records of h have been reported: on h[i - 1]. */
  function CursorAfter(t: RelTable, q: seq<int>, h: seq<Pos>, i: int): RelTable
    requires EntryOf(t, ATTRCAT_RELID).Ok? && OnPath(q, h) && 0 <= i <= |h|
  {
    if i == 0 then t else WithSearchIndex(t, ATTRCAT_RELID, RecIdOf(q, h[i - 1]))
  }

  /**
   * The attribute-catalog cursor after i linearSearch calls for RelName == name have
   * reported the first i records h: it sits on the last of them (or is as in t0 before the
   * first), and the scan from there reports the rest.
   */
  predicate AttrScanAt(ac: AttrTable, q: seq<int>, h: seq<Pos>, blocks: seq<RecBlock>, t0: RelTable,
                       name: string, i: int, k: int, t: RelTable)
  {
    && |blocks| == DISK_BLOCKS && InDisk(q) && OnPath(q, h) && 0 <= i <= |h| && EntryOf(t0, ATTRCAT_RELID).Ok?
    && NamedEntry(ac, ATTRCAT_RELID, RELCAT_ATTR_RELNAME).Ok?
    && t == CursorAfter(t0, q, h, i)
    && k == (if i == 0 then 0 else h[i - 1].idx)
    && ScanFrom(t, ATTRCAT_RELID, blocks, q, k)
    && NextHits(t, ac, ATTRCAT_RELID, RELCAT_ATTR_RELNAME, Str(name), EQ, blocks, q, k) == h[i..]
  }

  /** The next linearSearch reports h[i], a matching place, and moves the cursor onto it. */
  lemma AttrScanStep(ac: AttrTable, q: seq<int>, h: seq<Pos>, blocks: seq<RecBlock>, t0: RelTable,
                     name: string, i: int, k: int, t: RelTable)
    requires AttrScanAt(ac, q, h, blocks, t0, name, i, k, t) && i < |h|
    ensures 0 <= h[i].slot < blocks[q[h[i].idx]].head.numSlots
    ensures Matches(blocks[q[h[i].idx]], h[i].slot, SearchCond(ac, ATTRCAT_RELID, RELCAT_ATTR_RELNAME, Str(name), EQ))
    ensures AttrScanAt(ac, q, h, blocks, t0, name, i + 1, h[i].idx, WithSearchIndex(t, ATTRCAT_RELID, RecIdOf(q, h[i])))
  {
    ResumeAfterHit(t, ac, ATTRCAT_RELID, RELCAT_ATTR_RELNAME, Str(name), EQ, blocks, q, k);
    if i > 0 {
      SearchIndexOverride(t0, ATTRCAT_RELID, RecIdOf(q, h[i - 1]), RecIdOf(q, h[i]));
    }
    assert h[i..][0] == h[i] && h[i..][1..] == h[i + 1..];
  }

  /**
   * The state of renameRelation's loop after i passes over the records h of oldName: the
   * first i are renamed, the cursor is on the last of them and the scan reports the rest.
   */
  predicate RenameLoopInv(ac: AttrTable, q: seq<int>, h: seq<Pos>, b0: seq<RecBlock>, t0: RelTable,
                          oldName: string, newName: string, i: int, k: int, t: RelTable, bl: seq<RecBlock>)
  {
    && |b0| == DISK_BLOCKS && InDisk(q) && OnPath(q, h) && 0 <= i <= |h|
    && bl == RenameFields(b0, q, h[..i], ATTRCAT_REL_NAME_INDEX, Str(newName))
    && AttrScanAt(ac, q, h, bl, t0, oldName, i, k, t)
  }

  /** One pass of the loop, renaming the next hit and moving the cursor onto it, keeps RenameLoopInv. */
  lemma RenameLoopStep(ac: AttrTable, q: seq<int>, h: seq<Pos>, b0: seq<RecBlock>, t0: RelTable,
                       oldName: string, newName: string, i: int, k: int,
                       t: RelTable, bl: seq<RecBlock>, t': RelTable, bl': seq<RecBlock>)
    requires RenameLoopInv(ac, q, h, b0, t0, oldName, newName, i, k, t, bl) && i < |h|
    requires var n := NextHits(t, ac, ATTRCAT_RELID, RELCAT_ATTR_RELNAME, Str(oldName), EQ, bl, q, k);
      && n != []
      && bl' == WithField(bl, q[n[0].idx], n[0].slot, ATTRCAT_REL_NAME_INDEX, Str(newName))
      && t' == WithSearchIndex(t, ATTRCAT_RELID, RecIdOf(q, n[0]))
      && ScanFrom(t', ATTRCAT_RELID, bl', q, n[0].idx)
      && NextHits(t', ac, ATTRCAT_RELID, RELCAT_ATTR_RELNAME, Str(oldName), EQ, bl', q, n[0].idx) == n[1..]
    ensures RenameLoopInv(ac, q, h, b0, t0, oldName, newName, i + 1, h[i].idx, t', bl')
  {
    RenameFieldsNext(b0, q, h, i, ATTRCAT_REL_NAME_INDEX, Str(newName));
    if i > 0 {
      SearchIndexOverride(t0, ATTRCAT_RELID, RecIdOf(q, h[i - 1]), RecIdOf(q, h[i]));
    }
    assert h[i..][1..] == h[i + 1..];
  }

  /** Attribute-catalog record `rec` carries AttrName `name`, as strcmp compares the two. */
  predicate NameIs(rec: seq<Attr>, name: string) {
    BlockBuffer.StrCmp(AsStr(Field(rec, ATTRCAT_ATTR_NAME_INDEX)), name) == 0
  }

  /** The record at place x of the path q. */
  function RecAt(blocks: seq<RecBlock>, q: seq<int>, x: Pos): seq<Attr>
    requires |blocks| == DISK_BLOCKS && InDisk(q) && 0 <= x.idx < |q|
  {
    RecordOf(blocks[q[x.idx]], x.slot)
  }

  /** The first index from j on whose record in h is named `name`, or |h| when there is none. */
  function FirstNamedHit(blocks: seq<RecBlock>, q: seq<int>, h: seq<Pos>, j: nat, name: string): (r: nat)
    requires |blocks| == DISK_BLOCKS && InDisk(q) && OnPath(q, h) && j <= |h|
    ensures j <= r <= |h|
    ensures r < |h| ==> NameIs(RecAt(blocks, q, h[r]), name)
    ensures forall i :: j <= i < r ==> !NameIs(RecAt(blocks, q, h[i]), name)
    decreases |h| - j
  {
    if j == |h| then |h|
    else if NameIs(RecAt(blocks, q, h[j]), name) then j
    else FirstNamedHit(blocks, q, h, j + 1, name)
  }

  /** The last index below j whose record in h is named `name`, or -1 when there is none. */
  function LastNamedHit(blocks: seq<RecBlock>, q: seq<int>, h: seq<Pos>, j: nat, name: string): (r: int)
    requires |blocks| == DISK_BLOCKS && InDisk(q) && OnPath(q, h) && j <= |h|
    ensures -1 <= r < j
    ensures r >= 0 ==> NameIs(RecAt(blocks, q, h[r]), name)
    ensures forall i :: r < i < j ==> !NameIs(RecAt(blocks, q, h[i]), name)
  {
    if j == 0 then -1
    else if NameIs(RecAt(blocks, q, h[j - 1]), name) then j - 1
    else LastNamedHit(blocks, q, h, j - 1, name)
  }

  /** The record id remembered for the last record named `name` among the first j of h. */
  function LastNamedHitRec(blocks: seq<RecBlock>, q: seq<int>, h: seq<Pos>, j: nat, name: string): RecId
    requires |blocks| == DISK_BLOCKS && InDisk(q) && OnPath(q, h) && j <= |h|
  {
    var l := LastNamedHit(blocks, q, h, j, name);
    if l < 0 then NO_REC else RecIdOf(q, h[l])
  }

  /**
   * One record more of h in renameAttribute's loop: the first record named newName is this
   * one or further on, and the last one named oldName is this one or the one before.
   */
  lemma NamedHitStep(blocks: seq<RecBlock>, q: seq<int>, h: seq<Pos>, i: nat, oldName: string, newName: string)
    requires |blocks| == DISK_BLOCKS && InDisk(q) && OnPath(q, h) && i < |h|
    requires FirstNamedHit(blocks, q, h, 0, newName) >= i
    ensures NameIs(RecAt(blocks, q, h[i]), newName) <==> FirstNamedHit(blocks, q, h, 0, newName) == i
    ensures LastNamedHitRec(blocks, q, h, i + 1, oldName)
         == if NameIs(RecAt(blocks, q, h[i]), oldName) then RecIdOf(q, h[i]) else LastNamedHitRec(blocks, q, h, i, oldName)
  {
  }

  /**
   * renameAttribute: E_RELNOTEXIST when no relation-catalog record is named relName;
   * otherwise the attribute-catalog records of relName are scanned in chain order.
   */
  function RenameAttributeSpec(t: RelTable, ac: AttrTable, blocks: seq<RecBlock>, q: seq<int>,
                               relName: string, oldName: string, newName: string): CatalogOutcome
    requires CatalogsOk(t, ac, blocks, q)
  {
    var hr := RelHits(ac, blocks, relName);
    if hr == [] then CatalogOutcome(RelNotExist, blocks, WithSearchIndex(t, RELCAT_RELID, NO_REC))
    else
      var t1 := WithSearchIndex(WithSearchIndex(t, RELCAT_RELID, RecId(RELCAT_BLOCK, hr[0].slot)), ATTRCAT_RELID, NO_REC);
      AttrRenameSpec(t1, ac, blocks, q, relName, oldName, newName)
  }

  /**
   * The attribute-catalog part of renameAttribute: E_ATTREXIST, with the cursor on it, at
   * the first record of relName named newName; otherwise, with the cursor on the last
   * record of relName, E_ATTRNOTEXIST when none is named oldName, and SUCCESS after the
   * last one named oldName gets AttrName newName.
   */
  function AttrRenameSpec(t: RelTable, ac: AttrTable, blocks: seq<RecBlock>, q: seq<int>,
                          relName: string, oldName: string, newName: string): CatalogOutcome
    requires EntryOf(t, ATTRCAT_RELID).Ok? && NamedEntry(ac, ATTRCAT_RELID, RELCAT_ATTR_RELNAME).Ok?
    requires |blocks| == DISK_BLOCKS && InDisk(q)
  {
    var h := AttrHits(ac, blocks, q, relName);
    var e := FirstNamedHit(blocks, q, h, 0, newName);
    if e < |h| then CatalogOutcome(AttrExist, blocks, CursorAfter(t, q, h, e + 1))
    else
      var t2 := CursorAfter(t, q, h, |h|);
      var l := LastNamedHit(blocks, q, h, |h|, oldName);
      if l < 0 then CatalogOutcome(AttrNotExist, blocks, t2)
      else CatalogOutcome(Success, WithField(blocks, q[h[l].idx], h[l].slot, ATTRCAT_ATTR_NAME_INDEX, Str(newName)), t2)
  }

  /** Whether `name` is the name of one of the two catalogs, as strcmp compares them. */
  predicate IsCatalogName(name: string) {
    BlockBuffer.StrCmp(name, RELCAT_RELNAME) == 0 || BlockBuffer.StrCmp(name, ATTRCAT_RELNAME) == 0
  }

  /** The FirstBlock field of the relation-catalog record in slot `slot`. */
  function FirstBlockAt(blocks: seq<RecBlock>, slot: int): int
    requires |blocks| == DISK_BLOCKS
  {
    AsNum(Field(RecordOf(blocks[RELCAT_BLOCK], slot), RELCAT_FIRST_BLOCK_INDEX))
  }

  /** The first relation-catalog record a scan finds lies in a slot of RELCAT_BLOCK. */
  lemma RelHitSlot(ac: AttrTable, blocks: seq<RecBlock>, name: string)
    requires NamedEntry(ac, RELCAT_RELID, RELCAT_ATTR_RELNAME).Ok? && |blocks| == DISK_BLOCKS
    requires RelHits(ac, blocks, name) != []
    ensures var x := RelHits(ac, blocks, name)[0];
      x.idx == 0 && 0 <= x.slot < blocks[RELCAT_BLOCK].head.numSlots
  {
    var hr := RelHits(ac, blocks, name);
    HitsSound(blocks, RELCAT_CHAIN, 0, 0, SearchCond(ac, RELCAT_RELID, RELCAT_ATTR_RELNAME, Str(name), EQ));
    assert hr[0] in hr;
  }

  /**
   * What deleteRelation relies on once the relation is found: d is the chain of record
   * blocks that starts at the record's FirstBlock; the attribute catalog q is doubly linked,
   * its numEntries count its occupied slots, and its first block holds a record of another
   * relation (the catalogs' own attribute records live there), so it never empties; the
   * relation catalog's block is not part of the attribute catalog.
   */
  predicate DeleteRelationPre(ac: AttrTable, blocks: seq<RecBlock>, q: seq<int>, d: seq<int>, relName: string)
    requires NamedEntry(ac, RELCAT_RELID, RELCAT_ATTR_RELNAME).Ok? && NamedEntry(ac, ATTRCAT_RELID, RELCAT_ATTR_RELNAME).Ok?
    requires |blocks| == DISK_BLOCKS
  {
    var hr := RelHits(ac, blocks, relName);
    !IsCatalogName(relName) && hr != [] ==>
      && PathFrom(blocks, d, 0) && FirstBlockAt(blocks, hr[0].slot) == (if d == [] then -1 else d[0])
      && DoublyLinked(blocks, q) && RELCAT_BLOCK !in q
      && FirstKept(blocks, q, SearchCond(ac, ATTRCAT_RELID, RELCAT_ATTR_RELNAME, Str(relName), EQ))
  }

  /** What deleteRelation decides: its status, the new store, allocation map and relation cache. */
  datatype DeleteOutcome = DeleteOutcome(status: Status, blocks: seq<RecBlock>, allocMap: seq<int>, table: RelTable)

  /**
   * The end of deleteRelation on the relation catalog's block rb: the relation's slot is
   * marked free and numEntries goes one down and is written back; the relation catalog's
   * numRecs drops by one and the attribute catalog's by `count`.
   */
  function FreeRelCatRecord(st: DelState, rb: RecBlock, slot: int, count: int): DeleteOutcome
    requires StateOk(st) && 0 <= slot < |rb.slotMap|
  {
    var blocks := st.blocks[RELCAT_BLOCK := rb.(slotMap := rb.slotMap[slot := false], head := rb.head.(numEntries := rb.head.numEntries - 1))];
    var r := st.table[RELCAT_RELID].value.relCatEntry;
    var t1 := WithRelCatEntry(st.table, RELCAT_RELID, r.(numRecs := r.numRecs - 1));
    var a := t1[ATTRCAT_RELID].value.relCatEntry;
    DeleteOutcome(Success, blocks, st.allocMap, WithRelCatEntry(t1, ATTRCAT_RELID, a.(numRecs := a.numRecs - count)))
  }

  /** The same end as the source writes it: the decremented numEntries is never written back. */
  function FreeRelCatRecordAsWritten(st: DelState, rb: RecBlock, slot: int, count: int): DeleteOutcome
    requires StateOk(st) && 0 <= slot < |rb.slotMap|
  {
    var o := FreeRelCatRecord(st, rb, slot, count);
    o.(blocks := o.blocks[RELCAT_BLOCK := rb.(slotMap := rb.slotMap[slot := false])])
  }

  /**
   * deleteRelation: E_NOTPERMITTED for the two catalogs; E_RELNOTEXIST, with the
   * relation-catalog cursor reset, when no relation-catalog record is named relName;
   * otherwise the record chain d is released, the attribute loop EraseAll runs over the
   * relation's attribute-catalog records, and the relation-catalog record is freed. None
   * when the attribute loop would write outside the disk, which DeleteRelationPre excludes.
   */
  function DeleteRelationSpec(t: RelTable, ac: AttrTable, blocks: seq<RecBlock>, am: seq<int>, q: seq<int>, d: seq<int>,
                              relName: string): Option<DeleteOutcome>
    requires CatalogsOk(t, ac, blocks, q) && |am| == DISK_BLOCKS && InDisk(d)
  {
    if IsCatalogName(relName) then Some(DeleteOutcome(NotPermitted, blocks, am, t))
    else
      var hr := RelHits(ac, blocks, relName);
      if hr == [] then Some(DeleteOutcome(RelNotExist, blocks, am, WithSearchIndex(t, RELCAT_RELID, NO_REC)))
      else
        var slot := hr[0].slot;
        var t1 := WithSearchIndex(WithSearchIndex(t, RELCAT_RELID, RecId(RELCAT_BLOCK, slot)), ATTRCAT_RELID, NO_REC);
        var h := AttrHits(ac, blocks, q, relName);
        var e := EraseAll(DelState(blocks, ReleaseAll(am, d), t1), q, h);
        if e.None? then None
        else
          RelHitSlot(ac, blocks, relName);
          Some(FreeRelCatRecord(e.value, blocks[RELCAT_BLOCK], slot, |h|))
  }

  /**
   * The state of deleteRelation's attribute loop after i passes over the records h of
   * relation `name`: EraseAll's state for the first i, the chain in shape from the block of
   * the last of them, the scan from the cursor reporting the rest, and every block outside
   * the chain as it was.
   */
  predicate DeleteLoopInv(ac: AttrTable, q: seq<int>, h: seq<Pos>, st0: DelState, name: string, i: int, k: int, st: DelState) {
    && StateOk(st0) && InDisk(q) && OnPath(q, h) && 0 <= i <= |h|
    && NamedEntry(ac, ATTRCAT_RELID, RELCAT_ATTR_RELNAME).Ok?
    && EraseAll(st0, q, h[..i]) == Some(st)
    && k == (if i == 0 then 0 else h[i - 1].idx)
    && AheadOk(st.blocks, q, k, SearchCond(ac, ATTRCAT_RELID, RELCAT_ATTR_RELNAME, Str(name), EQ))
    && ScanFrom(st.table, ATTRCAT_RELID, st.blocks, q, k)
    && NextHits(st.table, ac, ATTRCAT_RELID, RELCAT_ATTR_RELNAME, Str(name), EQ, st.blocks, q, k) == h[i..]
    && (forall x :: 0 <= x < DISK_BLOCKS && x !in q ==> st.blocks[x] == st0.blocks[x])
  }

  /**
   * A scan resumed from the same cursor over blocks on which it reports the same places
   * reports what it reported before.
   */
  lemma ScanCarries(t1: RelTable, t2: RelTable, ac: AttrTable, name: string, b1: seq<RecBlock>, b2: seq<RecBlock>, q: seq<int>, k: int)
    requires ScanFrom(t1, ATTRCAT_RELID, b1, q, k) && NamedEntry(ac, ATTRCAT_RELID, RELCAT_ATTR_RELNAME).Ok?
    requires EntryOf(t2, ATTRCAT_RELID).Ok? && PathFrom(b2, q, k)
    requires t2[ATTRCAT_RELID].value.searchIndex == t1[ATTRCAT_RELID].value.searchIndex
    requires t2[ATTRCAT_RELID].value.relCatEntry.firstBlk == t1[ATTRCAT_RELID].value.relCatEntry.firstBlk
    requires var c := SearchCond(ac, ATTRCAT_RELID, RELCAT_ATTR_RELNAME, Str(name), EQ);
      var from := StartSlot(t1[ATTRCAT_RELID].value.searchIndex);
      Hits(b2, q, k, from, c) == Hits(b1, q, k, from, c)
    ensures ScanFrom(t2, ATTRCAT_RELID, b2, q, k)
    ensures NextHits(t2, ac, ATTRCAT_RELID, RELCAT_ATTR_RELNAME, Str(name), EQ, b2, q, k)
         == NextHits(t1, ac, ATTRCAT_RELID, RELCAT_ATTR_RELNAME, Str(name), EQ, b1, q, k)
  {
  }

  /** Erasing the hit the cursor was just moved onto leaves the scan from the cursor as it was. */
  lemma EraseKeepsScan(ac: AttrTable, name: string, q: seq<int>, st1: DelState, st2: DelState, kx: int, slot: int, c: Cond)
    requires StateOk(st1) && NamedEntry(ac, ATTRCAT_RELID, RELCAT_ATTR_RELNAME).Ok?
    requires c == SearchCond(ac, ATTRCAT_RELID, RELCAT_ATTR_RELNAME, Str(name), EQ)
    requires ScanFrom(st1.table, ATTRCAT_RELID, st1.blocks, q, kx) && kx < |q| && slot >= 0
    requires st1.table[ATTRCAT_RELID].value.searchIndex == RecId(q[kx], slot)
    requires EraseAttr(st1, q[kx], slot) == Some(st2)
    requires AheadOk(st2.blocks, q, kx, c) && SameScan(st2.blocks, st1.blocks, q, kx, slot + 1, c)
    ensures ScanFrom(st2.table, ATTRCAT_RELID, st2.blocks, q, kx)
    ensures NextHits(st2.table, ac, ATTRCAT_RELID, RELCAT_ATTR_RELNAME, Str(name), EQ, st2.blocks, q, kx)
         == NextHits(st1.table, ac, ATTRCAT_RELID, RELCAT_ATTR_RELNAME, Str(name), EQ, st1.blocks, q, kx)
  {
    AheadPath(st2.blocks, q, kx, c);
    EraseAttrCursor(st1, q[kx], slot);
    ScanCarries(st1.table, st2.table, ac, name, st1.blocks, st2.blocks, q, kx);
  }

  /**
   * In the loop state after i passes, the next linearSearch reports h[i], a matching
   * occupied place at or after the last one, and moves the cursor onto it.
   */
  lemma DeleteHitNext(ac: AttrTable, q: seq<int>, h: seq<Pos>, st0: DelState, name: string, i: int, k: int, st: DelState)
    requires DeleteLoopInv(ac, q, h, st0, name, i, k, st) && i < |h|
    ensures var x := h[i];
      var c := SearchCond(ac, ATTRCAT_RELID, RELCAT_ATTR_RELNAME, Str(name), EQ);
      var st1 := st.(table := WithSearchIndex(st.table, ATTRCAT_RELID, RecIdOf(q, x)));
      && k <= x.idx < |q| && 0 <= x.slot < st.blocks[q[x.idx]].head.numSlots
      && Matches(st.blocks[q[x.idx]], x.slot, c)
      && StateOk(st1) && st1.table[ATTRCAT_RELID].value.searchIndex == RecId(q[x.idx], x.slot)
      && ScanFrom(st1.table, ATTRCAT_RELID, st1.blocks, q, x.idx)
      && NextHits(st1.table, ac, ATTRCAT_RELID, RELCAT_ATTR_RELNAME, Str(name), EQ, st1.blocks, q, x.idx) == h[i + 1..]
      && AheadOk(st1.blocks, q, x.idx, c)
  {
    ResumeAfterHit(st.table, ac, ATTRCAT_RELID, RELCAT_ATTR_RELNAME, Str(name), EQ, st.blocks, q, k);
    assert h[i..][0] == h[i] && h[i..][1..] == h[i + 1..];
    AheadOkLater(st.blocks, q, k, h[i].idx, SearchCond(ac, ATTRCAT_RELID, RELCAT_ATTR_RELNAME, Str(name), EQ));
  }

  /**
   * Erasing h[i], once the cursor is on it, is defined, is the next step of EraseAll, keeps
   * the chain in shape from its block on and changes no block outside the chain.
   */
  lemma EraseHitStep(q: seq<int>, h: seq<Pos>, st0: DelState, i: int, st: DelState, st1: DelState, c: Cond)
    requires StateOk(st0) && InDisk(q) && OnPath(q, h) && 0 <= i < |h|
    requires EraseAll(st0, q, h[..i]) == Some(st) && StateOk(st)
    requires st1 == st.(table := WithSearchIndex(st.table, ATTRCAT_RELID, RecIdOf(q, h[i])))
    requires 0 <= h[i].slot < st1.blocks[q[h[i].idx]].head.numSlots && Matches(st1.blocks[q[h[i].idx]], h[i].slot, c)
    requires AheadOk(st1.blocks, q, h[i].idx, c)
    requires forall y :: 0 <= y < DISK_BLOCKS && y !in q ==> st1.blocks[y] == st0.blocks[y]
    ensures 0 <= q[h[i].idx] < DISK_BLOCKS && EraseAttr(st1, q[h[i].idx], h[i].slot).Some?
    ensures var st2 := EraseAttr(st1, q[h[i].idx], h[i].slot).value;
      && EraseAll(st0, q, h[..i + 1]) == Some(st2)
      && AheadOk(st2.blocks, q, h[i].idx, c)
      && forall y :: 0 <= y < DISK_BLOCKS && y !in q ==> st2.blocks[y] == st0.blocks[y]
  {
    EraseHitShape(q, st0, st1, h[i].idx, h[i].slot, c);
    EraseAllAfterHit(st0, q, h, i, st, st1);
  }

  /** Erasing h[i], once the cursor is on it, leaves the scan from the cursor reporting the rest of h. */
  lemma EraseHitScan(ac: AttrTable, q: seq<int>, h: seq<Pos>, st0: DelState, name: string, i: int, st1: DelState, c: Cond)
    requires InDisk(q) && OnPath(q, h) && 0 <= i < |h| && NamedEntry(ac, ATTRCAT_RELID, RELCAT_ATTR_RELNAME).Ok?
    requires c == SearchCond(ac, ATTRCAT_RELID, RELCAT_ATTR_RELNAME, Str(name), EQ)
    requires StateOk(st1) && |st0.blocks| == DISK_BLOCKS
    requires 0 <= h[i].slot < st1.blocks[q[h[i].idx]].head.numSlots && Matches(st1.blocks[q[h[i].idx]], h[i].slot, c)
    requires st1.table[ATTRCAT_RELID].value.searchIndex == RecId(q[h[i].idx], h[i].slot)
    requires ScanFrom(st1.table, ATTRCAT_RELID, st1.blocks, q, h[i].idx)
    requires NextHits(st1.table, ac, ATTRCAT_RELID, RELCAT_ATTR_RELNAME, Str(name), EQ, st1.blocks, q, h[i].idx) == h[i + 1..]
    requires AheadOk(st1.blocks, q, h[i].idx, c)
    requires forall y :: 0 <= y < DISK_BLOCKS && y !in q ==> st1.blocks[y] == st0.blocks[y]
    ensures EraseAttr(st1, q[h[i].idx], h[i].slot).Some?
    ensures var st2 := EraseAttr(st1, q[h[i].idx], h[i].slot).value;
      && ScanFrom(st2.table, ATTRCAT_RELID, st2.blocks, q, h[i].idx)
      && NextHits(st2.table, ac, ATTRCAT_RELID, RELCAT_ATTR_RELNAME, Str(name), EQ, st2.blocks, q, h[i].idx) == h[i + 1..]
  {
    var x := h[i];
    EraseHitShape(q, st0, st1, x.idx, x.slot, c);
    var st2 := EraseAttr(st1, q[x.idx], x.slot).value;
    EraseKeepsScan(ac, name, q, st1, st2, x.idx, x.slot, c);
  }

  /** With the cursor moved onto h[i], erasing h[i] is the next step of EraseAll. */
  lemma EraseAllAfterHit(st0: DelState, q: seq<int>, h: seq<Pos>, i: int, st: DelState, st1: DelState)
    requires StateOk(st0) && InDisk(q) && OnPath(q, h) && 0 <= i < |h| && EraseAll(st0, q, h[..i]) == Some(st)
    requires StateOk(st) && st1 == st.(table := WithSearchIndex(st.table, ATTRCAT_RELID, RecIdOf(q, h[i])))
    ensures 0 <= q[h[i].idx] < DISK_BLOCKS
    ensures EraseAll(st0, q, h[..i + 1]) == EraseAttr(st1, q[h[i].idx], h[i].slot)
  {
    EraseAllNext(st0, q, h, i);
  }

  /**
   * Erasing a matching occupied slot of the block at index kx of q, in a state whose blocks
   * outside q are those of st0: defined, keeps the chain in shape from kx on, changes
   * nothing the scan has still to look at and no block outside the chain.
   */
  lemma EraseHitShape(q: seq<int>, st0: DelState, st1: DelState, kx: int, slot: int, c: Cond)
    requires StateOk(st1) && AheadOk(st1.blocks, q, kx, c) && kx < |q|
    requires 0 <= slot < st1.blocks[q[kx]].head.numSlots && Matches(st1.blocks[q[kx]], slot, c)
    requires |st0.blocks| == DISK_BLOCKS && forall y :: 0 <= y < DISK_BLOCKS && y !in q ==> st1.blocks[y] == st0.blocks[y]
    ensures EraseAttr(st1, q[kx], slot).Some?
    ensures var st2 := EraseAttr(st1, q[kx], slot).value;
      && AheadOk(st2.blocks, q, kx, c)
      && SameScan(st2.blocks, st1.blocks, q, kx, slot + 1, c)
      && forall y :: 0 <= y < DISK_BLOCKS && y !in q ==> st2.blocks[y] == st0.blocks[y]
  {
    EraseStep(st1, q, kx, slot, c);
  }

  /** The next linearSearch reports h[i]; erasing it is defined and yields the state after i + 1 passes. */
  lemma DeleteLoopStep(ac: AttrTable, q: seq<int>, h: seq<Pos>, st0: DelState, name: string, i: int, k: int, st: DelState)
    requires DeleteLoopInv(ac, q, h, st0, name, i, k, st) && i < |h|
    ensures var x := h[i];
      var st1 := st.(table := WithSearchIndex(st.table, ATTRCAT_RELID, RecIdOf(q, x)));
      && 0 <= q[x.idx] < DISK_BLOCKS
      && EraseAttr(st1, q[x.idx], x.slot).Some?
      && DeleteLoopInv(ac, q, h, st0, name, i + 1, x.idx, EraseAttr(st1, q[x.idx], x.slot).value)
  {
    var x := h[i];
    var st1 := st.(table := WithSearchIndex(st.table, ATTRCAT_RELID, RecIdOf(q, x)));
    var c := SearchCond(ac, ATTRCAT_RELID, RELCAT_ATTR_RELNAME, Str(name), EQ);
    DeleteHitNext(ac, q, h, st0, name, i, k, st);
    EraseHitStep(q, h, st0, i, st, st1, c);
    EraseHitScan(ac, q, h, st0, name, i, st1, c);
  }

  class BlockAccess {
    const store: RecordStore
    const relCache: RelCacheTable
    const attrCache: AttrCacheTable

    ghost predicate Valid()
      reads this, store, relCache, attrCache
    {
      store.Valid() && relCache.Valid() && attrCache.Valid()
    }

    constructor (store: RecordStore, relCache: RelCacheTable, attrCache: AttrCacheTable)
      ensures this.store == store && this.relCache == relCache && this.attrCache == attrCache
    {
      this.store := store;
      this.relCache := relCache;
      this.attrCache := attrCache;
    }

    /**
     * The loop of linearSearch: from slot `slot` of block `block`, which is index j of the
     * chain p, visits the occupied slots block by block along rblock and returns the first
     * record whose attribute attrName compares with attrVal as op asks, or {-1, -1} when the
     * chain is exhausted. The offset and type come from the attribute cache, or from `stale`
     * when the cache has no attribute attrName (see ScanCond).
     */
    method NextMatch(relId: int, attrName: string, attrVal: Attr, op: Op, stale: AttrCatEntry,
                     block: int, slot: int, ghost p: seq<int>, ghost j: int)
      returns (r: RecId)
      requires Valid()
      requires PathFrom(store.blocks, p, j)
      requires block == if j < |p| then p[j] else -1
      requires j < |p| ==> slot >= 0
      ensures var h := Hits(store.blocks, p, j, if j < |p| then slot else 0, ScanCond(attrCache.attrCache[..], relId, attrName, attrVal, op, stale));
        r == if h == [] then NO_REC else RecIdOf(p, h[0])
    {
      ghost var c := ScanCond(attrCache.attrCache[..], relId, attrName, attrVal, op, stale);
      ghost var h := Hits(store.blocks, p, j, if j < |p| then slot else 0, c);
      ghost var i := j;
      var block, slot := block, slot;
      while block != -1
        invariant j <= i <= |p|
        invariant block == if i < |p| then p[i] else -1
        invariant i < |p| ==> slot >= 0 && Hits(store.blocks, p, i, slot, c) == h
        invariant i == |p| ==> h == []
        decreases |p| - i, if i < |p| && slot < store.blocks[p[i]].head.numSlots then store.blocks[p[i]].head.numSlots - slot else 0
      {
        var head := store.blocks[block].head;
        var record := RecordOf(store.blocks[block], slot);
        var slotMap := store.blocks[block].slotMap;
        if slot >= head.numSlots {
          block := head.rblock;
          slot := 0;
          i := i + 1;
          continue;
        }
        if !slotMap[slot] {
          slot := slot + 1;
          continue;
        }
        var attrCatEntry := stale;
        var found := attrCache.GetAttrCatEntry(relId, attrName);
        if found.Ok? {
          attrCatEntry := found.value;
        }
        var currentAttrVal := Field(record, attrCatEntry.offset);
        var cmpVal := BlockBuffer.CompareAttrs(currentAttrVal, attrVal, attrCatEntry.attrType);
        assert Matches(store.blocks[block], slot, c) == OpHolds(op, cmpVal);
        HitsStep(store.blocks, p, i, slot, c);
        if (op == NE && cmpVal != 0) || (op == LT && cmpVal < 0) || (op == LE && cmpVal <= 0)
          || (op == EQ && cmpVal == 0) || (op == GT && cmpVal > 0) || (op == GE && cmpVal >= 0)
        {
          return RecId(block, slot);
        }
        slot := slot + 1;
      }
      return NO_REC;
    }

    /**
     * linearSearch: resumes relation relId's scan after its cursor (or at the first block
     * for the cursor {-1, -1}) and returns the next hit, remembering it as the cursor;
     * {-1, -1}, with the cursor untouched, when none is left.
     */
    method LinearSearch(relId: int, attrName: string, attrVal: Attr, op: Op, stale: AttrCatEntry, ghost p: seq<int>, ghost k: int)
      returns (r: RecId)
      requires Valid()
      requires ScanFrom(relCache.relCache[..], relId, store.blocks, p, k)
      modifies relCache.relCache
      ensures var h := ScanHits(old(relCache.relCache[..]), attrCache.attrCache[..], relId, attrName, attrVal, op, stale, store.blocks, p, k);
        SearchOutcome(old(relCache.relCache[..]), relCache.relCache[..], relId, p, h, r)
      ensures NamedEntry(attrCache.attrCache[..], relId, attrName).Ok? ==>
        var h := NextHits(old(relCache.relCache[..]), attrCache.attrCache[..], relId, attrName, attrVal, op, store.blocks, p, k);
        SearchOutcome(old(relCache.relCache[..]), relCache.relCache[..], relId, p, h, r)
    {
      var prevRecId := relCache.GetSearchIndex(relId).value;
      var block: int, slot: int;
      if prevRecId.block == -1 && prevRecId.slot == -1 {
        var relCatEntry := relCache.GetRelCatEntry(relId).value;
        block := relCatEntry.firstBlk;
        slot := 0;
      } else {
        block := prevRecId.block;
        slot := prevRecId.slot + 1;
      }
      r := NextMatch(relId, attrName, attrVal, op, stale, block, slot, p, k);
      if r != NO_REC {
        var _ := relCache.SetSearchIndex(relId, r);
      }
    }

    /**
     * search: the record of the next linearSearch hit and SUCCESS, or E_NOTFOUND when the
     * scan is exhausted; the cursor moves as linearSearch moves it.
     */
    method Search(relId: int, attrName: string, attrVal: Attr, op: Op, stale: AttrCatEntry, ghost p: seq<int>, ghost k: int)
      returns (r: Result<seq<Attr>>)
      requires Valid()
      requires ScanFrom(relCache.relCache[..], relId, store.blocks, p, k)
      modifies relCache.relCache
      ensures var h := ScanHits(old(relCache.relCache[..]), attrCache.attrCache[..], relId, attrName, attrVal, op, stale, store.blocks, p, k);
        && (h == [] ==> r == Err(NotFound) && relCache.relCache[..] == old(relCache.relCache[..]))
        && (h != [] ==> r == Ok(RecordOf(store.blocks[p[h[0].idx]], h[0].slot)))
        && (h != [] ==> relCache.relCache[..] == WithSearchIndex(old(relCache.relCache[..]), relId, RecIdOf(p, h[0])))
    {
      var recId := LinearSearch(relId, attrName, attrVal, op, stale, p, k);
      if recId.block == -1 && recId.slot == -1 {
        return Err(NotFound);
      }
      r := Ok(RecordOf(store.blocks[recId.block], recId.slot));
    }

    /**
     * The traversal of insert: follows rblock from firstBlk and stops at the first free slot
     * of the first block that has one; without one it reports {-1, -1} and the last block
     * visited (-1 for an empty chain).
     */
    method FindFreeSlot(firstBlk: int, ghost p: seq<int>) returns (recId: RecId, prevBlockNum: int)
      requires Valid() && PathFrom(store.blocks, p, 0) && firstBlk == (if p == [] then -1 else p[0])
      ensures var i := FreeBlockFrom(store.blocks, p, 0);
        && (i < |p| ==> recId == RecId(p[i], FreeSlotFrom(store.blocks[p[i]].slotMap, 0)))
        && (i == |p| ==> recId == NO_REC && prevBlockNum == Tail(p))
    {
      var blockNum := firstBlk;
      prevBlockNum := -1;
      recId := NO_REC;
      ghost var k := 0;
      while blockNum != -1
        invariant 0 <= k <= |p|
        invariant blockNum == if k < |p| then p[k] else -1
        invariant prevBlockNum == (if k == 0 then -1 else p[k - 1])
        invariant FreeBlockFrom(store.blocks, p, 0) == FreeBlockFrom(store.blocks, p, k)
        invariant recId == NO_REC
        decreases |p| - k
      {
        var header := store.blocks[blockNum].head;
        var slotMap := store.blocks[blockNum].slotMap;
        for i := 0 to header.numSlots
          invariant recId == NO_REC
          invariant FreeSlotFrom(slotMap, 0) == FreeSlotFrom(slotMap, i)
        {
          if !slotMap[i] {
            recId := RecId(blockNum, i);
            break;
          }
        }
        if recId.block != -1 && recId.slot != -1 {
          return;
        }
        prevBlockNum := blockNum;
        blockNum := header.rblock;
        k := k + 1;
      }
    }

    /** The write-back of insert: the record into the slot, the slot marked occupied, numEntries one up. */
    method PlaceRecord(b: int, slot: int, record: seq<Attr>)
      requires Valid() && 0 <= b < DISK_BLOCKS && BlockOk(store.blocks[b]) && 0 <= slot < |store.blocks[b].slotMap|
      modifies store
      ensures Valid() && store.allocMap == old(store.allocMap)
      ensures store.blocks == Placed(old(store.blocks), b, slot, record)
    {
      var _ := store.SetRecord(b, slot, record);
      var header := store.blocks[b].head;
      var slotMap := store.blocks[b].slotMap;
      slotMap := slotMap[slot := true];
      store.SetSlotMap(b, slotMap);
      store.SetHeader(b, header.(numEntries := header.numEntries + 1));
    }

    /**
     * The extension of insert: allocates the lowest unused block, gives it the tail header
     * and an all-free slot map of numSlots entries, links it after prevBlockNum (or makes it
     * firstBlk when the chain is empty) and makes it lastBlk; E_DISKFULL with nothing
     * changed when no block is unused.
     */
    method AppendBlock(relId: int, prevBlockNum: int, numSlots: nat, numAttrs: int) returns (r: Result<int>)
      requires Valid() && EntryOf(relCache.relCache[..], relId).Ok? && -1 <= prevBlockNum < DISK_BLOCKS
      modifies store, relCache.relCache
      ensures Valid()
      ensures var f := FirstUnused(old(store.allocMap), 0);
        var e := old(relCache.relCache[relId].value.relCatEntry);
        if f == -1 then
          r == Err(DiskFull) && store.blocks == old(store.blocks) && store.allocMap == old(store.allocMap)
          && relCache.relCache[..] == old(relCache.relCache[..])
        else
          && r == Ok(f)
          && store.blocks == Linked(old(store.blocks), f, prevBlockNum, numSlots, numAttrs)
          && store.allocMap == old(store.allocMap)[f := REC]
          && relCache.relCache[..] == WithRelCatEntry(old(relCache.relCache[..]), relId,
               e.(firstBlk := if prevBlockNum == -1 then f else e.firstBlk, lastBlk := f))
    {
      ghost var t := relCache.relCache[..];
      r := store.AllocRecBlock();
      if r.Err? {
        return Err(DiskFull);
      }
      var f := r.value;
      store.SetHeader(f, HeadInfo(REC, -1, prevBlockNum, -1, 0, numAttrs, numSlots));
      store.SetSlotMap(f, seq(numSlots, _ => false));
      if prevBlockNum != -1 {
        var prevHeader := store.blocks[prevBlockNum].head;
        store.SetHeader(prevBlockNum, prevHeader.(rblock := f));
      } else {
        var relCatEntry := relCache.GetRelCatEntry(relId).value;
        var _ := relCache.SetRelCatEntry(relId, relCatEntry.(firstBlk := f));
      }
      var relCatEntry := relCache.GetRelCatEntry(relId).value;
      var _ := relCache.SetRelCatEntry(relId, relCatEntry.(lastBlk := f));
    }

    /**
     * insert: stores the record in the first free slot of relation relId's chain, or in
     * slot 0 of a block appended to it, and counts it in the block and the relation; the
     * outcome is the one InsertSpec decides, and nothing changes on an error.
     */
    method Insert(relId: int, record: seq<Attr>, ghost p: seq<int>) returns (s: Status)
      requires Valid() && EntryOf(relCache.relCache[..], relId).Ok?
      requires var e := relCache.relCache[relId].value.relCatEntry;
        && PathFrom(store.blocks, p, 0) && e.firstBlk == (if p == [] then -1 else p[0])
        && InsertPre(store.blocks, store.allocMap, p, relId, e)
      modifies store, relCache.relCache
      ensures Valid()
      ensures var o := InsertSpec(old(store.blocks), old(store.allocMap), p, relId, old(relCache.relCache[relId].value.relCatEntry), record);
        && s == o.status && store.blocks == o.blocks && store.allocMap == o.allocMap
        && relCache.relCache[..] == (if s == Success then WithRelCatEntry(old(relCache.relCache[..]), relId, o.entry) else old(relCache.relCache[..]))
    {
      var relCatEntry := relCache.GetRelCatEntry(relId).value;
      var blockNum := relCatEntry.firstBlk;
      var numOfSlots := relCatEntry.numSlotsPerBlk;
      var numOfAttributes := relCatEntry.numAttrs;
      var recId, prevBlockNum := FindFreeSlot(blockNum, p);
      if recId.block == -1 && recId.slot == -1 {
        if relId == RELCAT_RELID {
          return MaxRelations;
        }
        var ret := AppendBlock(relId, prevBlockNum, numOfSlots, numOfAttributes);
        if ret.Err? {
          return DiskFull;
        }
        recId := RecId(ret.value, 0);
      }
      PlaceRecord(recId.block, recId.slot, record);
      relCatEntry := relCache.GetRelCatEntry(relId).value;
      var _ := relCache.SetRelCatEntry(relId, relCatEntry.(numRecs := relCatEntry.numRecs + 1));
      return Success;
    }

    /**
     * The loop of renameRelation: noAttrs times, the next attribute-catalog record of oldName
     * by linearSearch gets RelName newName. Each write is behind the cursor, so the searches
     * report the records of oldName the catalog held before the loop, in order.
     */
    method RenameAttrCatRelName(oldName: string, newName: string, noAttrs: int, ghost q: seq<int>)
      requires Valid()
      requires ScanFrom(relCache.relCache[..], ATTRCAT_RELID, store.blocks, q, 0) && NoRepeats(q)
      requires relCache.relCache[ATTRCAT_RELID].value.searchIndex == NO_REC
      requires NamedEntry(attrCache.attrCache[..], ATTRCAT_RELID, RELCAT_ATTR_RELNAME).Ok?
      requires noAttrs <= |AttrHits(attrCache.attrCache[..], store.blocks, q, oldName)|
      modifies store, relCache.relCache
      ensures Valid() && store.allocMap == old(store.allocMap)
      ensures var h := AttrHits(attrCache.attrCache[..], old(store.blocks), q, oldName);
        var m := if noAttrs <= 0 then 0 else noAttrs;
        && store.blocks == RenameFields(old(store.blocks), q, h[..m], ATTRCAT_REL_NAME_INDEX, Str(newName))
        && relCache.relCache[..] == CursorAfter(old(relCache.relCache[..]), q, h, m)
    {
      ghost var ac := attrCache.attrCache[..];
      ghost var c := SearchCond(ac, ATTRCAT_RELID, RELCAT_ATTR_RELNAME, Str(oldName), EQ);
      ghost var h := AttrHits(ac, store.blocks, q, oldName);
      ghost var b0 := store.blocks;
      ghost var t0 := relCache.relCache[..];
      ghost var k := 0;
      var i := 0;
      while i < noAttrs
        invariant 0 <= i <= |h| && (noAttrs > 0 ==> i <= noAttrs) && (noAttrs <= 0 ==> i == 0)
        invariant Valid() && store.allocMap == old(store.allocMap) && attrCache.attrCache[..] == ac
        invariant RenameLoopInv(ac, q, h, b0, t0, oldName, newName, i, k, relCache.relCache[..], store.blocks)
        decreases noAttrs - i
      {
        ghost var t := relCache.relCache[..];
        ghost var bl := store.blocks;
        RenameNextAttrRecord(oldName, newName, q, k);
        RenameLoopStep(ac, q, h, b0, t0, oldName, newName, i, k, t, bl, relCache.relCache[..], store.blocks);
        k := h[i].idx;
        i := i + 1;
      }
    }

    /**
     * One pass of renameRelation's loop: linearSearch finds the next attribute-catalog record
     * of oldName, which gets RelName newName; the scan goes on with the hits after it.
     */
    method RenameNextAttrRecord(oldName: string, newName: string, ghost q: seq<int>, ghost k: int)
      requires Valid() && NoRepeats(q)
      requires ScanFrom(relCache.relCache[..], ATTRCAT_RELID, store.blocks, q, k)
      requires NamedEntry(attrCache.attrCache[..], ATTRCAT_RELID, RELCAT_ATTR_RELNAME).Ok?
      requires NextHits(relCache.relCache[..], attrCache.attrCache[..], ATTRCAT_RELID, RELCAT_ATTR_RELNAME, Str(oldName), EQ, store.blocks, q, k) != []
      modifies store, relCache.relCache
      ensures Valid() && store.allocMap == old(store.allocMap)
      ensures var h := NextHits(old(relCache.relCache[..]), attrCache.attrCache[..], ATTRCAT_RELID, RELCAT_ATTR_RELNAME, Str(oldName), EQ, old(store.blocks), q, k);
        && store.blocks == WithField(old(store.blocks), q[h[0].idx], h[0].slot, ATTRCAT_REL_NAME_INDEX, Str(newName))
        && relCache.relCache[..] == WithSearchIndex(old(relCache.relCache[..]), ATTRCAT_RELID, RecIdOf(q, h[0]))
        && ScanFrom(relCache.relCache[..], ATTRCAT_RELID, store.blocks, q, h[0].idx)
        && NextHits(relCache.relCache[..], attrCache.attrCache[..], ATTRCAT_RELID, RELCAT_ATTR_RELNAME, Str(oldName), EQ, store.blocks, q, h[0].idx) == h[1..]
    {
      ghost var ac := attrCache.attrCache[..];
      ghost var t := relCache.relCache[..];
      ghost var bl := store.blocks;
      ghost var h := NextHits(t, ac, ATTRCAT_RELID, RELCAT_ATTR_RELNAME, Str(oldName), EQ, bl, q, k);
      ResumeAfterHit(t, ac, ATTRCAT_RELID, RELCAT_ATTR_RELNAME, Str(oldName), EQ, bl, q, k);
      var recId := LinearSearch(ATTRCAT_RELID, RELCAT_ATTR_RELNAME, Str(oldName), EQ, UNSET_ENTRY, q, k);
      var record := RecordOf(store.blocks[recId.block], recId.slot);
      record := SetField(record, ATTRCAT_REL_NAME_INDEX, Str(newName));
      var _ := store.SetRecord(recId.block, recId.slot, record);
      ScanPastWrite(bl, q, h[0].idx, h[0].slot + 1, SearchCond(ac, ATTRCAT_RELID, RELCAT_ATTR_RELNAME, Str(oldName), EQ),
                    h[0].slot, ATTRCAT_REL_NAME_INDEX, Str(newName));
      PathSameShape(bl, store.blocks, q, h[0].idx);
    }

    /**
     * renameRelation: the outcome RenameRelationSpec decides, reached by the source's
     * sequence of cursor resets, linearSearch calls and record writes.
     */
    method RenameRelation(oldName: string, newName: string, ghost q: seq<int>) returns (s: Status)
      requires Valid() && CatalogsOk(relCache.relCache[..], attrCache.attrCache[..], store.blocks, q)
      requires RenameRelationPre(relCache.relCache[..], attrCache.attrCache[..], store.blocks, q, oldName, newName)
      modifies store, relCache.relCache
      ensures Valid() && store.allocMap == old(store.allocMap)
      ensures var o := RenameRelationSpec(old(relCache.relCache[..]), attrCache.attrCache[..], old(store.blocks), q, oldName, newName);
        s == o.status && store.blocks == o.blocks && relCache.relCache[..] == o.table
    {
      var recId := SearchRelCat(newName);
      if recId.block != -1 && recId.slot != -1 {
        return RelExist;
      }
      recId := SearchRelCat(oldName);
      if recId.block == -1 && recId.slot == -1 {
        return RelNotExist;
      }
      RenameFoundRelation(recId.slot, oldName, newName, q);
      return Success;
    }

    /**
     * The tail of renameRelation once the relation-catalog record in `slot` is found: it
     * gets RelName newName, then the attribute-catalog scan restarts and renames the first
     * numAttrs records of oldName.
     */
    method RenameFoundRelation(slot: int, oldName: string, newName: string, ghost q: seq<int>)
      requires Valid() && CatalogsOk(relCache.relCache[..], attrCache.attrCache[..], store.blocks, q)
      requires 0 <= slot < store.blocks[RELCAT_BLOCK].head.numSlots
      requires NumAttrsAt(store.blocks, slot) <= |AttrHits(attrCache.attrCache[..], RenamedRelCat(store.blocks, slot, newName), q, oldName)|
      modifies store, relCache.relCache
      ensures Valid() && store.allocMap == old(store.allocMap)
      ensures var o := RenameFoundSpec(old(relCache.relCache[..]), attrCache.attrCache[..], old(store.blocks), q, slot, oldName, newName);
        store.blocks == o.blocks && relCache.relCache[..] == o.table
    {
      ghost var b0 := store.blocks;
      var record := RecordOf(store.blocks[RELCAT_BLOCK], slot);
      record := SetField(record, RELCAT_REL_NAME_INDEX, Str(newName));
      var _ := store.SetRecord(RELCAT_BLOCK, slot, record);
      assert store.blocks == RenamedRelCat(b0, slot, newName);
      PathSameShape(b0, store.blocks, q, 0);
      var _ := relCache.ResetSearchIndex(ATTRCAT_RELID);
      var noAttrs := AsNum(Field(record, RELCAT_NO_ATTRIBUTES_INDEX));
      RenameAttrCatRelName(oldName, newName, noAttrs, q);
    }

    /**
     * The relation-catalog lookup the catalog operations open with: the cursor of the
     * relation catalog is reset, then linearSearch looks for RelName == name; the answer is
     * the first such record, or {-1, -1}, and the cursor is left where linearSearch leaves it.
     */
    method SearchRelCat(name: string) returns (recId: RecId)
      requires Valid() && EntryOf(relCache.relCache[..], RELCAT_RELID).Ok?
      requires relCache.relCache[RELCAT_RELID].value.relCatEntry.firstBlk == RELCAT_BLOCK && PathFrom(store.blocks, RELCAT_CHAIN, 0)
      requires NamedEntry(attrCache.attrCache[..], RELCAT_RELID, RELCAT_ATTR_RELNAME).Ok?
      modifies relCache.relCache
      ensures var h := RelHits(attrCache.attrCache[..], store.blocks, name);
        && (h == [] ==> recId == NO_REC)
        && (h != [] ==> recId == RecId(RELCAT_BLOCK, h[0].slot) && 0 <= h[0].slot < store.blocks[RELCAT_BLOCK].head.numSlots)
        && relCache.relCache[..] == WithSearchIndex(old(relCache.relCache[..]), RELCAT_RELID, recId)
    {
      ghost var t := relCache.relCache[..];
      var _ := relCache.ResetSearchIndex(RELCAT_RELID);
      ghost var c := SearchCond(attrCache.attrCache[..], RELCAT_RELID, RELCAT_ATTR_RELNAME, Str(name), EQ);
      HitsFirst(store.blocks, RELCAT_CHAIN, 0, 0, c);
      recId := LinearSearch(RELCAT_RELID, RELCAT_ATTR_RELNAME, Str(name), EQ, UNSET_ENTRY, RELCAT_CHAIN, 0);
      SearchIndexOverride(t, RELCAT_RELID, NO_REC, recId);
    }

    /**
     * renameAttribute: the outcome RenameAttributeSpec decides, reached by a relation-catalog
     * lookup and a cursor-driven scan of the attribute catalog.
     */
    method RenameAttribute(relName: string, oldName: string, newName: string, ghost q: seq<int>) returns (s: Status)
      requires Valid() && CatalogsOk(relCache.relCache[..], attrCache.attrCache[..], store.blocks, q)
      modifies store, relCache.relCache
      ensures Valid() && store.allocMap == old(store.allocMap)
      ensures var o := RenameAttributeSpec(old(relCache.relCache[..]), attrCache.attrCache[..], old(store.blocks), q, relName, oldName, newName);
        s == o.status && store.blocks == o.blocks && relCache.relCache[..] == o.table
    {
      var recId := SearchRelCat(relName);
      if recId.block == -1 && recId.slot == -1 {
        return RelNotExist;
      }
      var _ := relCache.ResetSearchIndex(ATTRCAT_RELID);
      s := RenameAttrRecord(relName, oldName, newName, q);
    }

    /**
     * The attribute-catalog part of renameAttribute: the scan for the record to rename,
     * then, when there is one and no record is named newName, the write of its AttrName.
     */
    method RenameAttrRecord(relName: string, oldName: string, newName: string, ghost q: seq<int>) returns (s: Status)
      requires Valid() && ScanFrom(relCache.relCache[..], ATTRCAT_RELID, store.blocks, q, 0)
      requires relCache.relCache[ATTRCAT_RELID].value.searchIndex == NO_REC
      requires NamedEntry(attrCache.attrCache[..], ATTRCAT_RELID, RELCAT_ATTR_RELNAME).Ok?
      modifies store, relCache.relCache
      ensures Valid() && store.allocMap == old(store.allocMap)
      ensures var o := AttrRenameSpec(old(relCache.relCache[..]), attrCache.attrCache[..], old(store.blocks), q, relName, oldName, newName);
        s == o.status && store.blocks == o.blocks && relCache.relCache[..] == o.table
    {
      ghost var h := AttrHits(attrCache.attrCache[..], store.blocks, q, relName);
      var taken, attrToRenameRecId := FindAttrToRename(relName, oldName, newName, q);
      if taken {
        return AttrExist;
      }
      if attrToRenameRecId.block == -1 && attrToRenameRecId.slot == -1 {
        return AttrNotExist;
      }
      ghost var l := LastNamedHit(store.blocks, q, h, |h|, oldName);
      HitsSound(store.blocks, q, 0, 0, SearchCond(attrCache.attrCache[..], ATTRCAT_RELID, RELCAT_ATTR_RELNAME, Str(relName), EQ));
      assert h[l] in h;
      var record := RecordOf(store.blocks[attrToRenameRecId.block], attrToRenameRecId.slot);
      record := SetField(record, ATTRCAT_ATTR_NAME_INDEX, Str(newName));
      var _ := store.SetRecord(attrToRenameRecId.block, attrToRenameRecId.slot, record);
      return Success;
    }

    /**
     * The loop of renameAttribute: linearSearch goes through the attribute-catalog records of
     * relName, remembering the last one named oldName, and stops at the first one named
     * newName (taken) or when the scan is exhausted.
     */
    method FindAttrToRename(relName: string, oldName: string, newName: string, ghost q: seq<int>)
      returns (taken: bool, attrToRenameRecId: RecId)
      requires Valid() && ScanFrom(relCache.relCache[..], ATTRCAT_RELID, store.blocks, q, 0)
      requires relCache.relCache[ATTRCAT_RELID].value.searchIndex == NO_REC
      requires NamedEntry(attrCache.attrCache[..], ATTRCAT_RELID, RELCAT_ATTR_RELNAME).Ok?
      modifies relCache.relCache
      ensures var h := AttrHits(attrCache.attrCache[..], store.blocks, q, relName);
        var e := FirstNamedHit(store.blocks, q, h, 0, newName);
        && (taken <==> e < |h|)
        && (taken ==> relCache.relCache[..] == CursorAfter(old(relCache.relCache[..]), q, h, e + 1))
        && (!taken ==> attrToRenameRecId == LastNamedHitRec(store.blocks, q, h, |h|, oldName))
        && (!taken ==> relCache.relCache[..] == CursorAfter(old(relCache.relCache[..]), q, h, |h|))
    {
      ghost var ac := attrCache.attrCache[..];
      ghost var h := AttrHits(ac, store.blocks, q, relName);
      ghost var t0 := relCache.relCache[..];
      ghost var i := 0;
      ghost var k := 0;
      attrToRenameRecId := NO_REC;
      while true
        invariant AttrScanAt(ac, q, h, store.blocks, t0, relName, i, k, relCache.relCache[..])
        invariant attrCache.attrCache[..] == ac && Valid()
        invariant FirstNamedHit(store.blocks, q, h, 0, newName) >= i
        invariant attrToRenameRecId == LastNamedHitRec(store.blocks, q, h, i, oldName)
        decreases |h| - i
      {
        var done, named, last := InspectNextAttr(relName, oldName, newName, q, h, t0, i, k, attrToRenameRecId);
        if done {
          break;
        }
        attrToRenameRecId := last;
        if named {
          return true, attrToRenameRecId;
        }
        k := h[i].idx;
        i := i + 1;
      }
      return false, attrToRenameRecId;
    }

    /**
     * One pass of renameAttribute's loop: the next linearSearch, and once it reports h[i],
     * the record's AttrName compared with oldName (remembered in `last`) and newName.
     */
    method InspectNextAttr(relName: string, oldName: string, newName: string, ghost q: seq<int>, ghost h: seq<Pos>,
                           ghost t0: RelTable, ghost i: int, ghost k: int, prev: RecId)
      returns (done: bool, named: bool, last: RecId)
      requires Valid() && AttrScanAt(attrCache.attrCache[..], q, h, store.blocks, t0, relName, i, k, relCache.relCache[..])
      requires FirstNamedHit(store.blocks, q, h, 0, newName) >= i
      requires prev == LastNamedHitRec(store.blocks, q, h, i, oldName)
      modifies relCache.relCache
      ensures Valid() && (done <==> i == |h|)
      ensures done ==> relCache.relCache[..] == old(relCache.relCache[..])
      ensures !done ==> (&& AttrScanAt(attrCache.attrCache[..], q, h, store.blocks, t0, relName, i + 1, h[i].idx, relCache.relCache[..])
                         && last == LastNamedHitRec(store.blocks, q, h, i + 1, oldName)
                         && (named <==> FirstNamedHit(store.blocks, q, h, 0, newName) == i))
    {
      var temp := NextAttrOfRel(relName, q, h, t0, i, k);
      if temp.block == -1 && temp.slot == -1 {
        return true, false, prev;
      }
      var attrCatEntryRecord := RecordOf(store.blocks[temp.block], temp.slot);
      assert attrCatEntryRecord == RecAt(store.blocks, q, h[i]);
      NamedHitStep(store.blocks, q, h, i, oldName, newName);
      last := prev;
      if BlockBuffer.StrCmp(AsStr(Field(attrCatEntryRecord, ATTRCAT_ATTR_NAME_INDEX)), oldName) == 0 {
        last := temp;
      }
      named := BlockBuffer.StrCmp(AsStr(Field(attrCatEntryRecord, ATTRCAT_ATTR_NAME_INDEX)), newName) == 0;
      done := false;
    }

    /**
     * One linearSearch of the attribute catalog for RelName == relName, seen as a step of
     * the enumeration of its hits h: it reports h[i] and moves the cursor onto it, or
     * reports {-1, -1} once all of h has been reported.
     */
    method NextAttrOfRel(relName: string, ghost q: seq<int>, ghost h: seq<Pos>, ghost t0: RelTable, ghost i: int, ghost k: int)
      returns (temp: RecId)
      requires Valid() && AttrScanAt(attrCache.attrCache[..], q, h, store.blocks, t0, relName, i, k, relCache.relCache[..])
      modifies relCache.relCache
      ensures i == |h| ==> temp == NO_REC && relCache.relCache[..] == old(relCache.relCache[..])
      ensures i < |h| ==> (&& temp == RecIdOf(q, h[i]) && 0 <= temp.block < DISK_BLOCKS
                         && 0 <= temp.slot < store.blocks[temp.block].head.numSlots
                         && AttrScanAt(attrCache.attrCache[..], q, h, store.blocks, t0, relName, i + 1, h[i].idx, relCache.relCache[..]))
    {
      ghost var t := relCache.relCache[..];
      if i < |h| {
        AttrScanStep(attrCache.attrCache[..], q, h, store.blocks, t0, relName, i, k, t);
      }
      temp := LinearSearch(ATTRCAT_RELID, RELCAT_ATTR_RELNAME, Str(relName), EQ, UNSET_ENTRY, q, k);
    }

    /** The part of the database deleteRelation changes, as one value. */
    ghost function State(): DelState
      reads this, store, relCache, relCache.relCache
    {
      DelState(store.blocks, store.allocMap, relCache.relCache[..])
    }

    /**
     * deleteRelation: the outcome DeleteRelationSpec decides, reached by a relation-catalog
     * lookup, the release of the record chain, the attribute loop and the release of the
     * relation-catalog record.
     */
    method DeleteRelation(relName: string, ghost q: seq<int>, ghost d: seq<int>) returns (s: Status)
      requires Valid() && CatalogsOk(relCache.relCache[..], attrCache.attrCache[..], store.blocks, q) && InDisk(d)
      requires DeleteRelationPre(attrCache.attrCache[..], store.blocks, q, d, relName)
      modifies store, relCache.relCache
      ensures Valid()
      ensures DeleteRelationSpec(old(relCache.relCache[..]), attrCache.attrCache[..], old(store.blocks), old(store.allocMap), q, d, relName)
        == Some(DeleteOutcome(s, store.blocks, store.allocMap, relCache.relCache[..]))
    {
      if BlockBuffer.StrCmp(relName, RELCAT_RELNAME) == 0 || BlockBuffer.StrCmp(relName, ATTRCAT_RELNAME) == 0 {
        return NotPermitted;
      }
      var recId := SearchRelCat(relName);
      if recId.block == -1 && recId.slot == -1 {
        return RelNotExist;
      }
      var relCatEntryRecord := RecordOf(store.blocks[RELCAT_BLOCK], recId.slot);
      var firstBlock := AsNum(Field(relCatEntryRecord, RELCAT_FIRST_BLOCK_INDEX));
      ReleaseRecordBlocks(firstBlock, d);
      var _ := relCache.ResetSearchIndex(ATTRCAT_RELID);
      var numberOfAttributesDeleted := DeleteAttrRecords(relName, q);
      FreeRelCatSlot(recId.slot, numberOfAttributesDeleted);
      return Success;
    }

    /** The first loop of deleteRelation: releases every block of the record chain d, following rblock from firstBlock. */
    method ReleaseRecordBlocks(firstBlock: int, ghost d: seq<int>)
      requires Valid() && PathFrom(store.blocks, d, 0) && firstBlock == (if d == [] then -1 else d[0])
      modifies store
      ensures Valid() && store.blocks == old(store.blocks)
      ensures store.allocMap == ReleaseAll(old(store.allocMap), d)
    {
      var nextBlock := firstBlock;
      ghost var i := 0;
      while nextBlock != -1
        invariant Valid() && store.blocks == old(store.blocks)
        invariant 0 <= i <= |d| && nextBlock == (if i < |d| then d[i] else -1)
        invariant store.allocMap == ReleaseAll(old(store.allocMap), d[..i])
        decreases |d| - i
      {
        var header := store.blocks[nextBlock].head;
        var block := nextBlock;
        nextBlock := header.rblock;
        store.ReleaseBlock(block);
        assert d[..i + 1][..i] == d[..i];
        i := i + 1;
      }
      assert d[..i] == d;
    }

    /**
     * The attribute loop of deleteRelation: each linearSearch hit for RelName == relName is
     * erased as EraseAttr says, until the scan is exhausted; returns how many were erased.
     */
    method DeleteAttrRecords(relName: string, ghost q: seq<int>) returns (count: int)
      requires Valid() && StateOk(State())
      requires ScanFrom(relCache.relCache[..], ATTRCAT_RELID, store.blocks, q, 0)
      requires relCache.relCache[ATTRCAT_RELID].value.searchIndex == NO_REC
      requires NamedEntry(attrCache.attrCache[..], ATTRCAT_RELID, RELCAT_ATTR_RELNAME).Ok?
      requires DoublyLinked(store.blocks, q)
      requires FirstKept(store.blocks, q, SearchCond(attrCache.attrCache[..], ATTRCAT_RELID, RELCAT_ATTR_RELNAME, Str(relName), EQ))
      modifies store, relCache.relCache
      ensures Valid()
      ensures var h := AttrHits(attrCache.attrCache[..], old(store.blocks), q, relName);
        && EraseAll(old(State()), q, h) == Some(State()) && count == |h|
        && forall x :: 0 <= x < DISK_BLOCKS && x !in q ==> store.blocks[x] == old(store.blocks[x])
    {
      ghost var ac := attrCache.attrCache[..];
      ghost var st0 := State();
      ghost var h := AttrHits(ac, store.blocks, q, relName);
      ghost var i := 0;
      ghost var k := 0;
      AheadOkInit(store.blocks, q, SearchCond(ac, ATTRCAT_RELID, RELCAT_ATTR_RELNAME, Str(relName), EQ));
      assert h[..0] == [] && h[0..] == h;
      count := 0;
      while true
        invariant Valid() && attrCache.attrCache[..] == ac
        invariant DeleteLoopInv(ac, q, h, st0, relName, i, k, State())
        invariant count == i
        decreases |h| - i
      {
        ghost var st := State();
        var attrCatRecId := NextAttrToDelete(relName, q, h, i, k);
        if attrCatRecId.block == -1 && attrCatRecId.slot == -1 {
          break;
        }
        count := count + 1;
        EraseHit(attrCatRecId, relName, q, h, st0, i, k, st);
        k := h[i].idx;
        i := i + 1;
      }
      assert h[..i] == h;
    }

    /** The erasure of the hit h[i] the cursor was just moved onto, as a pass of the attribute loop. */
    method EraseHit(attrCatRecId: RecId, relName: string, ghost q: seq<int>, ghost h: seq<Pos>, ghost st0: DelState,
                    ghost i: int, ghost k: int, ghost st: DelState)
      requires Valid() && DeleteLoopInv(attrCache.attrCache[..], q, h, st0, relName, i, k, st) && i < |h|
      requires attrCatRecId == RecIdOf(q, h[i])
      requires State() == st.(table := WithSearchIndex(st.table, ATTRCAT_RELID, attrCatRecId))
      modifies store, relCache.relCache
      ensures Valid() && DeleteLoopInv(attrCache.attrCache[..], q, h, st0, relName, i + 1, h[i].idx, State())
    {
      DeleteLoopStep(attrCache.attrCache[..], q, h, st0, relName, i, k, st);
      EraseAttrRecord(attrCatRecId.block, attrCatRecId.slot);
    }

    /**
     * One linearSearch of the attribute catalog for RelName == relName, seen as a step of
     * the enumeration of its hits h: it reports h[i] and moves the cursor onto it, or
     * reports {-1, -1} once all of h has been reported.
     */
    method NextAttrToDelete(relName: string, ghost q: seq<int>, ghost h: seq<Pos>, ghost i: int, ghost k: int) returns (r: RecId)
      requires Valid() && OnPath(q, h) && 0 <= i <= |h|
      requires ScanFrom(relCache.relCache[..], ATTRCAT_RELID, store.blocks, q, k)
      requires NamedEntry(attrCache.attrCache[..], ATTRCAT_RELID, RELCAT_ATTR_RELNAME).Ok?
      requires NextHits(relCache.relCache[..], attrCache.attrCache[..], ATTRCAT_RELID, RELCAT_ATTR_RELNAME, Str(relName), EQ, store.blocks, q, k) == h[i..]
      modifies relCache.relCache
      ensures i == |h| ==> r == NO_REC && relCache.relCache[..] == old(relCache.relCache[..])
      ensures i < |h| ==> (&& r == RecIdOf(q, h[i]) && r.block != -1
                         && relCache.relCache[..] == WithSearchIndex(old(relCache.relCache[..]), ATTRCAT_RELID, r))
    {
      if i < |h| {
        assert h[i..][0] == h[i];
      }
      r := LinearSearch(ATTRCAT_RELID, RELCAT_ATTR_RELNAME, Str(relName), EQ, UNSET_ENTRY, q, k);
    }

    /**
     * One pass of deleteRelation's attribute loop on the record in slot `slot` of block b:
     * the slot is marked free, numEntries goes one down and, if that leaves none, the block
     * is spliced out of the attribute catalog's chain and released.
     */
    method EraseAttrRecord(b: int, slot: int)
      requires Valid() && 0 <= b < DISK_BLOCKS && StateOk(State()) && EraseAttr(State(), b, slot).Some?
      modifies store, relCache.relCache
      ensures Valid() && State() == EraseAttr(old(State()), b, slot).value
    {
      var header := store.blocks[b].head;
      var slotMap := store.blocks[b].slotMap;
      slotMap := slotMap[slot := false];
      store.SetSlotMap(b, slotMap);
      header := header.(numEntries := header.numEntries - 1);
      store.SetHeader(b, header);
      if header.numEntries == 0 {
        var leftHeader := store.blocks[header.lblock].head;
        store.SetHeader(header.lblock, leftHeader.(rblock := header.rblock));
        if header.rblock != -1 {
          var rightHeader := store.blocks[header.rblock].head;
          store.SetHeader(header.rblock, rightHeader.(lblock := header.lblock));
        } else {
          var relCatEntry := relCache.GetRelCatEntry(ATTRCAT_RELID).value;
          var _ := relCache.SetRelCatEntry(ATTRCAT_RELID, relCatEntry.(lastBlk := header.lblock));
        }
        store.ReleaseBlock(b);
      }
    }

    /**
     * The end of deleteRelation: frees the relation's slot in the relation catalog's block,
     * writes back its numEntries one lower, and lowers the numRecs of the relation catalog
     * by one and of the attribute catalog by count.
     */
    method FreeRelCatSlot(slot: int, count: int)
      requires Valid() && StateOk(State()) && BlockOk(store.blocks[RELCAT_BLOCK])
      requires 0 <= slot < store.blocks[RELCAT_BLOCK].head.numSlots
      modifies store, relCache.relCache
      ensures Valid()
      ensures FreeRelCatRecord(old(State()), old(store.blocks[RELCAT_BLOCK]), slot, count)
        == DeleteOutcome(Success, store.blocks, store.allocMap, relCache.relCache[..])
    {
      var header := store.blocks[RELCAT_BLOCK].head;
      header := header.(numEntries := header.numEntries - 1);
      var slotMap := store.blocks[RELCAT_BLOCK].slotMap;
      slotMap := slotMap[slot := false];
      store.SetSlotMap(RELCAT_BLOCK, slotMap);
      store.SetHeader(RELCAT_BLOCK, header);
      var relCatEntry := relCache.GetRelCatEntry(RELCAT_RELID).value;
      var _ := relCache.SetRelCatEntry(RELCAT_RELID, relCatEntry.(numRecs := relCatEntry.numRecs - 1));
      relCatEntry := relCache.GetRelCatEntry(ATTRCAT_RELID).value;
      var _ := relCache.SetRelCatEntry(ATTRCAT_RELID, relCatEntry.(numRecs := relCatEntry.numRecs - count));
    }
  }

  /**
   * renameRelation's verdict: E_RELEXIST exactly when some relation-catalog record is
   * named newName, E_RELNOTEXIST exactly when none is named newName or oldName, SUCCESS
   * otherwise; the errors leave the disk as it was.
   */
  lemma RenameRelationOutcome(t: RelTable, ac: AttrTable, blocks: seq<RecBlock>, q: seq<int>, oldName: string, newName: string)
    requires CatalogsOk(t, ac, blocks, q)
    ensures var o := RenameRelationSpec(t, ac, blocks, q, oldName, newName);
      var cn := SearchCond(ac, RELCAT_RELID, RELCAT_ATTR_RELNAME, Str(newName), EQ);
      var co := SearchCond(ac, RELCAT_RELID, RELCAT_ATTR_RELNAME, Str(oldName), EQ);
      && (o.status == RelExist <==> exists x :: HitAfter(blocks, RELCAT_CHAIN, 0, 0, cn, x))
      && (o.status == RelNotExist <==> (forall x :: !HitAfter(blocks, RELCAT_CHAIN, 0, 0, cn, x)) && (forall x :: !HitAfter(blocks, RELCAT_CHAIN, 0, 0, co, x)))
      && (o.status == Success <==> (forall x :: !HitAfter(blocks, RELCAT_CHAIN, 0, 0, cn, x)) && (exists x :: HitAfter(blocks, RELCAT_CHAIN, 0, 0, co, x)))
      && (o.status != Success ==> o.blocks == blocks)
  {
    HitsFirst(blocks, RELCAT_CHAIN, 0, 0, SearchCond(ac, RELCAT_RELID, RELCAT_ATTR_RELNAME, Str(newName), EQ));
    HitsFirst(blocks, RELCAT_CHAIN, 0, 0, SearchCond(ac, RELCAT_RELID, RELCAT_ATTR_RELNAME, Str(oldName), EQ));
  }

  /**
   * What a successful renameRelation writes: the relation-catalog record of oldName gets
   * RelName newName, so does each attribute-catalog record the scan renamed (as many as
   * numAttrs when the catalog holds that many), and nothing else changes, not a header, not
   * a slot map, not another record or another attribute.
   */
  lemma RenameRelationWrites(t: RelTable, ac: AttrTable, blocks: seq<RecBlock>, q: seq<int>, oldName: string, newName: string)
    requires CatalogsOk(t, ac, blocks, q)
    requires RenameRelationSpec(t, ac, blocks, q, oldName, newName).status == Success
    ensures RelHits(ac, blocks, oldName) != []
    ensures var o := RenameRelationSpec(t, ac, blocks, q, oldName, newName);
      var slot := RelHits(ac, blocks, oldName)[0].slot;
      var b1 := RenamedRelCat(blocks, slot, newName);
      var h := AttrHits(ac, b1, q, oldName);
      var n := NumAttrsAt(blocks, slot);
      var hm := h[..if n <= 0 then 0 else if n <= |h| then n else |h|];
      && RecordOf(o.blocks[RELCAT_BLOCK], slot) == SetField(RecordOf(blocks[RELCAT_BLOCK], slot), RELCAT_REL_NAME_INDEX, Str(newName))
      && (forall j :: 0 <= j < |hm| ==> RecordOf(o.blocks[q[hm[j].idx]], hm[j].slot) == SetField(RecordOf(b1[q[hm[j].idx]], hm[j].slot), ATTRCAT_REL_NAME_INDEX, Str(newName)))
      && (forall b, s :: 0 <= b < DISK_BLOCKS && !(b == RELCAT_BLOCK && s == slot) && (forall j :: 0 <= j < |hm| ==> !At(q, hm, j, b, s))
            ==> RecordOf(o.blocks[b], s) == RecordOf(blocks[b], s))
      && (forall b :: 0 <= b < DISK_BLOCKS ==> o.blocks[b].head == blocks[b].head && o.blocks[b].slotMap == blocks[b].slotMap)
      && (RenameRelationPre(t, ac, blocks, q, oldName, newName) && n > 0 ==> |hm| == n)
  {
    var slot := RelHits(ac, blocks, oldName)[0].slot;
    var b1 := RenamedRelCat(blocks, slot, newName);
    var h := AttrHits(ac, b1, q, oldName);
    var n := NumAttrsAt(blocks, slot);
    WriteThenRenameFields(blocks, RELCAT_BLOCK, slot, q, h[..if n <= 0 then 0 else if n <= |h| then n else |h|], ATTRCAT_REL_NAME_INDEX, Str(newName));
  }

  /**
   * renameAttribute's verdict: E_RELNOTEXIST exactly when no relation-catalog record is
   * named relName; otherwise, over the attribute-catalog records of relName, E_ATTREXIST
   * exactly when one is named newName, E_ATTRNOTEXIST exactly when none is named newName or
   * oldName, SUCCESS otherwise; the errors leave the disk as it was.
   */
  lemma RenameAttributeOutcome(t: RelTable, ac: AttrTable, blocks: seq<RecBlock>, q: seq<int>,
                               relName: string, oldName: string, newName: string)
    requires CatalogsOk(t, ac, blocks, q)
    ensures var o := RenameAttributeSpec(t, ac, blocks, q, relName, oldName, newName);
      var cr := SearchCond(ac, RELCAT_RELID, RELCAT_ATTR_RELNAME, Str(relName), EQ);
      var found := exists x :: HitAfter(blocks, RELCAT_CHAIN, 0, 0, cr, x);
      var h := AttrHits(ac, blocks, q, relName);
      var anyNew := exists j :: 0 <= j < |h| && NameIs(RecAt(blocks, q, h[j]), newName);
      var anyOld := exists j :: 0 <= j < |h| && NameIs(RecAt(blocks, q, h[j]), oldName);
      && (o.status == RelNotExist <==> !found)
      && (o.status == AttrExist <==> found && anyNew)
      && (o.status == AttrNotExist <==> found && !anyNew && !anyOld)
      && (o.status == Success <==> found && !anyNew && anyOld)
      && (o.status != Success ==> o.blocks == blocks)
  {
    HitsFirst(blocks, RELCAT_CHAIN, 0, 0, SearchCond(ac, RELCAT_RELID, RELCAT_ATTR_RELNAME, Str(relName), EQ));
  }

  /**
   * What a successful renameAttribute writes: the last attribute-catalog record of relName
   * named oldName gets AttrName newName and nothing else on the disk changes.
   */
  lemma RenameAttributeWrites(t: RelTable, ac: AttrTable, blocks: seq<RecBlock>, q: seq<int>,
                              relName: string, oldName: string, newName: string)
    requires CatalogsOk(t, ac, blocks, q)
    requires RenameAttributeSpec(t, ac, blocks, q, relName, oldName, newName).status == Success
    ensures var o := RenameAttributeSpec(t, ac, blocks, q, relName, oldName, newName);
      var h := AttrHits(ac, blocks, q, relName);
      exists j :: 0 <= j < |h| && NameIs(RecAt(blocks, q, h[j]), oldName)
        && (forall i :: j < i < |h| ==> !NameIs(RecAt(blocks, q, h[i]), oldName))
        && o.blocks == WithField(blocks, q[h[j].idx], h[j].slot, ATTRCAT_ATTR_NAME_INDEX, Str(newName))
  {
    var h := AttrHits(ac, blocks, q, relName);
    var l := LastNamedHit(blocks, q, h, |h|, oldName);
    assert 0 <= l < |h|;
  }

  /** From any state of the attribute loop, the remaining passes are defined and keep every block outside the chain. */
  lemma {:induction false} DeleteLoopRest(ac: AttrTable, q: seq<int>, h: seq<Pos>, st0: DelState, name: string, i: int, k: int, st: DelState)
    requires DeleteLoopInv(ac, q, h, st0, name, i, k, st)
    ensures EraseAll(st0, q, h).Some?
    ensures forall x :: 0 <= x < DISK_BLOCKS && x !in q ==> EraseAll(st0, q, h).value.blocks[x] == st0.blocks[x]
    decreases |h| - i
  {
    if i == |h| {
      assert h[..i] == h;
    } else {
      var x := h[i];
      DeleteLoopStep(ac, q, h, st0, name, i, k, st);
      var st1 := st.(table := WithSearchIndex(st.table, ATTRCAT_RELID, RecIdOf(q, x)));
      DeleteLoopRest(ac, q, h, st0, name, i + 1, x.idx, EraseAttr(st1, q[x.idx], x.slot).value);
    }
  }

  /**
   * Once the relation is found and DeleteRelationPre holds, the attribute loop of
   * deleteRelation is defined and leaves every block outside the attribute catalog alone.
   */
  lemma DeleteAttrLoop(t: RelTable, ac: AttrTable, blocks: seq<RecBlock>, am: seq<int>, q: seq<int>, d: seq<int>, relName: string)
    requires CatalogsOk(t, ac, blocks, q) && |am| == DISK_BLOCKS && InDisk(d)
    requires DeleteRelationPre(ac, blocks, q, d, relName)
    requires !IsCatalogName(relName) && RelHits(ac, blocks, relName) != []
    ensures var slot := RelHits(ac, blocks, relName)[0].slot;
      var t1 := WithSearchIndex(WithSearchIndex(t, RELCAT_RELID, RecId(RELCAT_BLOCK, slot)), ATTRCAT_RELID, NO_REC);
      var st0 := DelState(blocks, ReleaseAll(am, d), t1);
      var e := EraseAll(st0, q, AttrHits(ac, blocks, q, relName));
      && StateOk(st0) && e.Some?
      && (forall x :: 0 <= x < DISK_BLOCKS && x !in q ==> e.value.blocks[x] == blocks[x])
  {
    var slot := RelHits(ac, blocks, relName)[0].slot;
    var t1 := WithSearchIndex(WithSearchIndex(t, RELCAT_RELID, RecId(RELCAT_BLOCK, slot)), ATTRCAT_RELID, NO_REC);
    var st0 := DelState(blocks, ReleaseAll(am, d), t1);
    var h := AttrHits(ac, blocks, q, relName);
    AheadOkInit(blocks, q, SearchCond(ac, ATTRCAT_RELID, RELCAT_ATTR_RELNAME, Str(relName), EQ));
    assert h[..0] == [] && h[0..] == h;
    assert DeleteLoopInv(ac, q, h, st0, relName, 0, 0, st0);
    DeleteLoopRest(ac, q, h, st0, relName, 0, 0, st0);
  }

  /** Under DeleteRelationPre, deleteRelation always has an outcome. */
  lemma DeleteRelationDefined(t: RelTable, ac: AttrTable, blocks: seq<RecBlock>, am: seq<int>, q: seq<int>, d: seq<int>, relName: string)
    requires CatalogsOk(t, ac, blocks, q) && |am| == DISK_BLOCKS && InDisk(d)
    requires DeleteRelationPre(ac, blocks, q, d, relName)
    ensures DeleteRelationSpec(t, ac, blocks, am, q, d, relName).Some?
  {
    if !IsCatalogName(relName) && RelHits(ac, blocks, relName) != [] {
      DeleteAttrLoop(t, ac, blocks, am, q, d, relName);
    }
  }

  /**
   * deleteRelation's verdict: E_NOTPERMITTED exactly for the two catalog names,
   * E_RELNOTEXIST exactly when no relation-catalog record is named relName, SUCCESS
   * otherwise; the errors leave the disk and the allocation map as they were.
   */
  lemma DeleteRelationOutcome(t: RelTable, ac: AttrTable, blocks: seq<RecBlock>, am: seq<int>, q: seq<int>, d: seq<int>, relName: string)
    requires CatalogsOk(t, ac, blocks, q) && |am| == DISK_BLOCKS && InDisk(d)
    requires DeleteRelationPre(ac, blocks, q, d, relName)
    ensures DeleteRelationSpec(t, ac, blocks, am, q, d, relName).Some?
    ensures var o := DeleteRelationSpec(t, ac, blocks, am, q, d, relName).value;
      var c := SearchCond(ac, RELCAT_RELID, RELCAT_ATTR_RELNAME, Str(relName), EQ);
      && (o.status == NotPermitted <==> IsCatalogName(relName))
      && (o.status == RelNotExist <==> !IsCatalogName(relName) && forall x :: !HitAfter(blocks, RELCAT_CHAIN, 0, 0, c, x))
      && (o.status == Success <==> !IsCatalogName(relName) && exists x :: HitAfter(blocks, RELCAT_CHAIN, 0, 0, c, x))
      && (o.status != Success ==> o.blocks == blocks && o.allocMap == am)
  {
    DeleteRelationDefined(t, ac, blocks, am, q, d, relName);
    HitsFirst(blocks, RELCAT_CHAIN, 0, 0, SearchCond(ac, RELCAT_RELID, RELCAT_ATTR_RELNAME, Str(relName), EQ));
  }

  /**
   * The end of deleteRelation on the state w the attribute loop left: only the relation
   * catalog's block changes on the disk, its slot is free and its numEntries one lower; the
   * allocation map is w's; numRecs drops by one and by count.
   */
  lemma FreeRelCatEffect(w: DelState, rb: RecBlock, slot: int, count: int)
    requires StateOk(w) && 0 <= slot < |rb.slotMap|
    ensures var o := FreeRelCatRecord(w, rb, slot, count);
      && o.status == Success && |o.blocks| == DISK_BLOCKS && o.allocMap == w.allocMap
      && !Used(o.blocks[RELCAT_BLOCK], slot)
      && (forall s :: s != slot ==> Used(o.blocks[RELCAT_BLOCK], s) == Used(rb, s))
      && o.blocks[RELCAT_BLOCK].records == rb.records
      && o.blocks[RELCAT_BLOCK].head == rb.head.(numEntries := rb.head.numEntries - 1)
      && (forall x :: 0 <= x < DISK_BLOCKS && x != RELCAT_BLOCK ==> o.blocks[x] == w.blocks[x])
      && EntryOf(o.table, RELCAT_RELID).Ok? && EntryOf(o.table, ATTRCAT_RELID).Ok?
      && o.table[RELCAT_RELID].value.relCatEntry.numRecs == w.table[RELCAT_RELID].value.relCatEntry.numRecs - 1
      && o.table[ATTRCAT_RELID].value.relCatEntry.numRecs == w.table[ATTRCAT_RELID].value.relCatEntry.numRecs - count
  {
  }

  /**
   * What a successful deleteRelation leaves in the allocation map: every block of the
   * record chain is free, and no other block outside the attribute catalog changes.
   */
  lemma DeleteRelationReleases(t: RelTable, ac: AttrTable, blocks: seq<RecBlock>, am: seq<int>, q: seq<int>, d: seq<int>, relName: string)
    requires CatalogsOk(t, ac, blocks, q) && |am| == DISK_BLOCKS && InDisk(d)
    requires DeleteRelationPre(ac, blocks, q, d, relName)
    requires !IsCatalogName(relName) && RelHits(ac, blocks, relName) != []
    ensures DeleteRelationSpec(t, ac, blocks, am, q, d, relName).Some?
    ensures var o := DeleteRelationSpec(t, ac, blocks, am, q, d, relName).value;
      && o.status == Success && |o.allocMap| == DISK_BLOCKS
      && (forall b :: b in d ==> o.allocMap[b] == UNUSED_BLK)
      && (forall b :: 0 <= b < DISK_BLOCKS && b !in d && b !in q ==> o.allocMap[b] == am[b])
  {
    var slot := RelHits(ac, blocks, relName)[0].slot;
    var t1 := WithSearchIndex(WithSearchIndex(t, RELCAT_RELID, RecId(RELCAT_BLOCK, slot)), ATTRCAT_RELID, NO_REC);
    var st0 := DelState(blocks, ReleaseAll(am, d), t1);
    var h := AttrHits(ac, blocks, q, relName);
    DeleteAttrLoop(t, ac, blocks, am, q, d, relName);
    RelHitSlot(ac, blocks, relName);
    var w := EraseAll(st0, q, h).value;
    EraseAllKeeps(st0, q, h);
    FreeRelCatEffect(w, blocks[RELCAT_BLOCK], slot, |h|);
  }

  /**
   * What a successful deleteRelation leaves on the disk: the relation-catalog record's slot
   * is free and numEntries one lower, the rest of that block as it was; no
   * attribute-catalog record of relName remains, no slot anywhere becomes occupied, no
   * record's contents change, and no block outside the two catalogs changes.
   */
  lemma DeleteRelationEffect(t: RelTable, ac: AttrTable, blocks: seq<RecBlock>, am: seq<int>, q: seq<int>, d: seq<int>, relName: string)
    requires CatalogsOk(t, ac, blocks, q) && |am| == DISK_BLOCKS && InDisk(d)
    requires DeleteRelationPre(ac, blocks, q, d, relName)
    requires !IsCatalogName(relName) && RelHits(ac, blocks, relName) != []
    ensures DeleteRelationSpec(t, ac, blocks, am, q, d, relName).Some?
    ensures var o := DeleteRelationSpec(t, ac, blocks, am, q, d, relName).value;
      var slot := RelHits(ac, blocks, relName)[0].slot;
      var c := SearchCond(ac, ATTRCAT_RELID, RELCAT_ATTR_RELNAME, Str(relName), EQ);
      var rb := blocks[RELCAT_BLOCK];
      && |o.blocks| == DISK_BLOCKS
      && Used(rb, slot) && !Used(o.blocks[RELCAT_BLOCK], slot)
      && (forall s :: s != slot ==> Used(o.blocks[RELCAT_BLOCK], s) == Used(rb, s))
      && o.blocks[RELCAT_BLOCK].records == rb.records
      && o.blocks[RELCAT_BLOCK].head == rb.head.(numEntries := rb.head.numEntries - 1)
      && (forall j, s :: 0 <= j < |q| ==> !Matches(o.blocks[q[j]], s, c))
      && (forall x, s :: 0 <= x < DISK_BLOCKS && Used(o.blocks[x], s) ==> Used(blocks[x], s))
      && (forall x :: 0 <= x < DISK_BLOCKS ==> o.blocks[x].records == blocks[x].records)
      && (forall x :: 0 <= x < DISK_BLOCKS && x != RELCAT_BLOCK && x !in q ==> o.blocks[x] == blocks[x])
  {
    var slot := RelHits(ac, blocks, relName)[0].slot;
    var t1 := WithSearchIndex(WithSearchIndex(t, RELCAT_RELID, RecId(RELCAT_BLOCK, slot)), ATTRCAT_RELID, NO_REC);
    var st0 := DelState(blocks, ReleaseAll(am, d), t1);
    var h := AttrHits(ac, blocks, q, relName);
    DeleteAttrLoop(t, ac, blocks, am, q, d, relName);
    RelHitSlot(ac, blocks, relName);
    var w := EraseAll(st0, q, h).value;
    EraseAllKeeps(st0, q, h);
    var c := SearchCond(ac, ATTRCAT_RELID, RELCAT_ATTR_RELNAME, Str(relName), EQ);
    var hr := RelHits(ac, blocks, relName);
    HitsSound(blocks, RELCAT_CHAIN, 0, 0, SearchCond(ac, RELCAT_RELID, RELCAT_ATTR_RELNAME, Str(relName), EQ));
    assert hr[0] in hr;
    EraseAllClears(st0, q, c);
    FreeRelCatEffect(w, blocks[RELCAT_BLOCK], slot, |h|);
    assert DeleteRelationSpec(t, ac, blocks, am, q, d, relName).value == FreeRelCatRecord(w, blocks[RELCAT_BLOCK], slot, |h|);
  }

  /**
   * The counts a successful deleteRelation leaves in the relation cache: numRecs drops by
   * one for the relation catalog and by the number of erased records for the attribute
   * catalog.
   */
  lemma DeleteRelationCounts(t: RelTable, ac: AttrTable, blocks: seq<RecBlock>, am: seq<int>, q: seq<int>, d: seq<int>, relName: string)
    requires CatalogsOk(t, ac, blocks, q) && |am| == DISK_BLOCKS && InDisk(d)
    requires DeleteRelationPre(ac, blocks, q, d, relName)
    requires !IsCatalogName(relName) && RelHits(ac, blocks, relName) != []
    ensures DeleteRelationSpec(t, ac, blocks, am, q, d, relName).Some?
    ensures var o := DeleteRelationSpec(t, ac, blocks, am, q, d, relName).value;
      && EntryOf(o.table, RELCAT_RELID).Ok? && EntryOf(o.table, ATTRCAT_RELID).Ok?
      && o.table[RELCAT_RELID].value.relCatEntry.numRecs == t[RELCAT_RELID].value.relCatEntry.numRecs - 1
      && o.table[ATTRCAT_RELID].value.relCatEntry.numRecs
         == t[ATTRCAT_RELID].value.relCatEntry.numRecs - |AttrHits(ac, blocks, q, relName)|
  {
    var slot := RelHits(ac, blocks, relName)[0].slot;
    var t1 := WithSearchIndex(WithSearchIndex(t, RELCAT_RELID, RecId(RELCAT_BLOCK, slot)), ATTRCAT_RELID, NO_REC);
    var st0 := DelState(blocks, ReleaseAll(am, d), t1);
    var h := AttrHits(ac, blocks, q, relName);
    DeleteAttrLoop(t, ac, blocks, am, q, d, relName);
    RelHitSlot(ac, blocks, relName);
    var w := EraseAll(st0, q, h).value;
    EraseAllKeeps(st0, q, h);
    FreeRelCatEffect(w, blocks[RELCAT_BLOCK], slot, |h|);
  }

  /**
   * The relation catalog's count as the source leaves it: its block held numEntries equal
   * to its occupied slots, and afterwards holds one more than its occupied slots.
   */
  lemma RelCatCountAsWritten(st: DelState, rb: RecBlock, slot: int, count: int)
    requires StateOk(st) && BlockOk(rb) && rb.head.numEntries == Count(rb.slotMap) && Used(rb, slot)
    ensures var b := FreeRelCatRecordAsWritten(st, rb, slot, count).blocks[RELCAT_BLOCK];
      b.head.numEntries == Count(b.slotMap) + 1
  {
    CountClear(rb.slotMap, slot);
  }

  /** The corrected end of deleteRelation keeps the relation catalog's numEntries equal to its occupied slots. */
  lemma RelCatCountKept(st: DelState, rb: RecBlock, slot: int, count: int)
    requires StateOk(st) && BlockOk(rb) && rb.head.numEntries == Count(rb.slotMap) && Used(rb, slot)
    ensures var b := FreeRelCatRecord(st, rb, slot, count).blocks[RELCAT_BLOCK];
      b.head.numEntries == Count(b.slotMap)
  {
    CountClear(rb.slotMap, slot);
  }
}
