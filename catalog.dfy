/**
 * Field updates of stored records, as the two catalog renames perform them: getRecord, one
 * attribute replaced, setRecord. A scan that has passed a record is not affected by a write
 * to it, which is what lets renameRelation rewrite records while its cursor moves on.
 */
module Catalog {
  import opened Defs
  import opened RecordStore
  import opened Scan

  /**
   * The record with attribute i set to v. A record is copied into a fixed-size array before
   * the update, so a short record is first padded with Num(0), the value Field reads there.
   */
  function SetField(rec: seq<Attr>, i: nat, v: Attr): (r: seq<Attr>)
    ensures Field(r, i) == v
    ensures forall j :: j != i ==> Field(r, j) == Field(rec, j)
    ensures |rec| <= |r|
  {
    var padded := if i < |rec| then rec else rec + seq(i + 1 - |rec|, _ => Num(0));
    padded[i := v]
  }

  /** Setting the same attribute to the same value twice is setting it once. */
  lemma SetFieldIdempotent(rec: seq<Attr>, i: nat, v: Attr)
    ensures SetField(SetField(rec, i, v), i, v) == SetField(rec, i, v)
  {
  }

  /** The store with attribute i of the record in slot `slot` of block b set to v. */
  function WithField(blocks: seq<RecBlock>, b: int, slot: int, i: nat, v: Attr): (r: seq<RecBlock>)
    requires |blocks| == DISK_BLOCKS && 0 <= b < DISK_BLOCKS
    ensures |r| == DISK_BLOCKS
    ensures r[b].head == blocks[b].head && r[b].slotMap == blocks[b].slotMap
    ensures RecordOf(r[b], slot) == SetField(RecordOf(blocks[b], slot), i, v)
    ensures forall s :: s != slot ==> RecordOf(r[b], s) == RecordOf(blocks[b], s)
    ensures forall c :: 0 <= c < DISK_BLOCKS && c != b ==> r[c] == blocks[c]
  {
    blocks[b := blocks[b].(records := blocks[b].records[slot := SetField(RecordOf(blocks[b], slot), i, v)])]
  }

  /** Every place of h lies on the path p. */
  predicate OnPath(p: seq<int>, h: seq<Pos>) {
    forall j :: 0 <= j < |h| ==> 0 <= h[j].idx < |p|
  }

  /** The store after attribute i of the record at each place of h, in order, was set to v. */
  function RenameFields(blocks: seq<RecBlock>, p: seq<int>, h: seq<Pos>, i: nat, v: Attr): (r: seq<RecBlock>)
    requires |blocks| == DISK_BLOCKS && InDisk(p) && OnPath(p, h)
    ensures |r| == DISK_BLOCKS
    decreases |h|
  {
    if h == [] then blocks
    else
      var q := h[|h| - 1];
      WithField(RenameFields(blocks, p, h[..|h| - 1], i, v), p[q.idx], q.slot, i, v)
  }

  /** Renaming one place more of h is one more field write. */
  lemma RenameFieldsNext(blocks: seq<RecBlock>, p: seq<int>, h: seq<Pos>, n: nat, i: nat, v: Attr)
    requires |blocks| == DISK_BLOCKS && InDisk(p) && OnPath(p, h) && n < |h|
    ensures RenameFields(blocks, p, h[..n + 1], i, v) == WithField(RenameFields(blocks, p, h[..n], i, v), p[h[n].idx], h[n].slot, i, v)
  {
    assert h[..n + 1][..n] == h[..n];
  }

  /** The place h[j] is the slot `s` of block b. */
  predicate At(p: seq<int>, h: seq<Pos>, j: int, b: int, s: int)
    requires OnPath(p, h) && 0 <= j < |h|
  {
    p[h[j].idx] == b && h[j].slot == s
  }

  /** RenameFields changes no header and no slot map. */
  lemma {:induction false} RenameFieldsShape(blocks: seq<RecBlock>, p: seq<int>, h: seq<Pos>, i: nat, v: Attr)
    requires |blocks| == DISK_BLOCKS && InDisk(p) && OnPath(p, h)
    ensures var r := RenameFields(blocks, p, h, i, v);
      forall b :: 0 <= b < DISK_BLOCKS ==> r[b].head == blocks[b].head && r[b].slotMap == blocks[b].slotMap
    decreases |h|
  {
    if h != [] {
      RenameFieldsShape(blocks, p, h[..|h| - 1], i, v);
    }
  }

  /** RenameFields sets attribute i to v in the record at every place of h, keeping its other attributes. */
  lemma {:induction false} RenameFieldsWrites(blocks: seq<RecBlock>, p: seq<int>, h: seq<Pos>, i: nat, v: Attr)
    requires |blocks| == DISK_BLOCKS && InDisk(p) && OnPath(p, h)
    ensures var r := RenameFields(blocks, p, h, i, v);
      forall j :: 0 <= j < |h| ==> RecordOf(r[p[h[j].idx]], h[j].slot) == SetField(RecordOf(blocks[p[h[j].idx]], h[j].slot), i, v)
    decreases |h|
  {
    if h != [] {
      var h' := h[..|h| - 1];
      var q := h[|h| - 1];
      RenameFieldsWrites(blocks, p, h', i, v);
      var r' := RenameFields(blocks, p, h', i, v);
      var r := RenameFields(blocks, p, h, i, v);
      assert r == WithField(r', p[q.idx], q.slot, i, v);
      forall j | 0 <= j < |h| - 1
        ensures RecordOf(r[p[h[j].idx]], h[j].slot) == SetField(RecordOf(blocks[p[h[j].idx]], h[j].slot), i, v)
      {
        assert h[j] == h'[j];
        if p[h[j].idx] == p[q.idx] && h[j].slot == q.slot {
          SetFieldIdempotent(RecordOf(blocks[p[h[j].idx]], h[j].slot), i, v);
        }
      }
      if j :| 0 <= j < |h'| && At(p, h', j, p[q.idx], q.slot) {
        SetFieldIdempotent(RecordOf(blocks[p[q.idx]], q.slot), i, v);
      } else {
        RenameFieldsKeeps(blocks, p, h', i, v, p[q.idx], q.slot);
      }
    }
  }

  /** RenameFields leaves every record at no place of h as it was. */
  lemma {:induction false} RenameFieldsKeeps(blocks: seq<RecBlock>, p: seq<int>, h: seq<Pos>, i: nat, v: Attr, b: int, s: int)
    requires |blocks| == DISK_BLOCKS && InDisk(p) && OnPath(p, h) && 0 <= b < DISK_BLOCKS
    requires forall j :: 0 <= j < |h| ==> !At(p, h, j, b, s)
    ensures RecordOf(RenameFields(blocks, p, h, i, v)[b], s) == RecordOf(blocks[b], s)
    decreases |h|
  {
    if h != [] {
      var h' := h[..|h| - 1];
      assert !At(p, h, |h| - 1, b, s);
      forall j | 0 <= j < |h'| ensures !At(p, h', j, b, s) {
        assert h'[j] == h[j] && !At(p, h, j, b, s);
      }
      RenameFieldsKeeps(blocks, p, h', i, v, b, s);
    }
  }

  /**
   * One field write followed by RenameFields of the same attribute and value: the first
   * record and every place of h carry the value, every other record is as it was before
   * both, and no header or slot map changes.
   */
  lemma {:induction false} WriteThenRenameFields(blocks: seq<RecBlock>, b: int, slot: int, p: seq<int>, h: seq<Pos>, i: nat, v: Attr)
    requires |blocks| == DISK_BLOCKS && 0 <= b < DISK_BLOCKS && InDisk(p) && OnPath(p, h)
    ensures var b1 := WithField(blocks, b, slot, i, v);
      var r := RenameFields(b1, p, h, i, v);
      && RecordOf(r[b], slot) == SetField(RecordOf(blocks[b], slot), i, v)
      && (forall j :: 0 <= j < |h| ==> RecordOf(r[p[h[j].idx]], h[j].slot) == SetField(RecordOf(b1[p[h[j].idx]], h[j].slot), i, v))
      && (forall c, s :: 0 <= c < DISK_BLOCKS && !(c == b && s == slot) && (forall j :: 0 <= j < |h| ==> !At(p, h, j, c, s))
            ==> RecordOf(r[c], s) == RecordOf(blocks[c], s))
      && (forall c :: 0 <= c < DISK_BLOCKS ==> r[c].head == blocks[c].head && r[c].slotMap == blocks[c].slotMap)
  {
    var b1 := WithField(blocks, b, slot, i, v);
    RenameFieldsShape(b1, p, h, i, v);
    RenameFieldsWrites(b1, p, h, i, v);
    if j :| 0 <= j < |h| && At(p, h, j, b, slot) {
      SetFieldIdempotent(RecordOf(blocks[b], slot), i, v);
    } else {
      RenameFieldsKeeps(b1, p, h, i, v, b, slot);
    }
    forall c, s | 0 <= c < DISK_BLOCKS && !(c == b && s == slot) && (forall j :: 0 <= j < |h| ==> !At(p, h, j, c, s))
      ensures RecordOf(RenameFields(b1, p, h, i, v)[c], s) == RecordOf(blocks[c], s)
    {
      RenameFieldsKeeps(b1, p, h, i, v, c, s);
    }
  }

  /**
   * A scan resumed past a written slot reports what it reported before the write: the
   * written record is behind it and the path does not come back to its block.
   */
  lemma ScanPastWrite(blocks: seq<RecBlock>, p: seq<int>, k: nat, from: nat, c: Cond, slot: int, i: nat, v: Attr)
    requires |blocks| == DISK_BLOCKS && InDisk(p) && NoRepeats(p) && k < |p| && slot < from
    ensures Hits(WithField(blocks, p[k], slot, i, v), p, k, from, c) == Hits(blocks, p, k, from, c)
  {
    var w := WithField(blocks, p[k], slot, i, v);
    assert SameFrom(blocks, w, p[k], from, c);
    forall j | k < j < |p| ensures SameFrom(blocks, w, p[j], 0, c) {
      assert w[p[j]] == blocks[p[j]];
    }
    HitsFrame(blocks, w, p, k, from, c);
  }

  /** A store whose headers and slot maps are those of another has the same rblock paths. */
  lemma PathSameShape(b1: seq<RecBlock>, b2: seq<RecBlock>, p: seq<int>, k: int)
    requires PathFrom(b1, p, k) && |b2| == DISK_BLOCKS
    requires forall b :: 0 <= b < DISK_BLOCKS ==> b2[b].head == b1[b].head && b2[b].slotMap == b1[b].slotMap
    ensures PathFrom(b2, p, k)
  {
  }
}
