/**
 * The record scan behind BlockAccess::linearSearch, stated over the record-level view: a
 * relation's record blocks form a path linked by rblock, and a scan visits the slots of
 * each block in order, keeping the occupied slots whose attribute satisfies a condition.
 */
module Scan {
  import opened Defs
  import opened RecordStore
  import BB = BlockBuffer

  /** A selection condition: the attribute at `offset`, of type `attrType`, compared with `val` by `op`. */
  datatype Cond = Cond(offset: int, attrType: int, val: Attr, op: Op)

  /** Whether a comparison result satisfies the operator (NE, LT, LE, EQ, GT, GE). */
  predicate OpHolds(op: Op, cmp: int) {
    match op
    case NE => cmp != 0
    case LT => cmp < 0
    case LE => cmp <= 0
    case EQ => cmp == 0
    case GT => cmp > 0
    case GE => cmp >= 0
  }

  /** Slot s of the block is occupied and its record satisfies the condition. */
  predicate Matches(blk: RecBlock, s: int, c: Cond) {
    Used(blk, s) && OpHolds(c.op, BB.CompareAttrs(Field(RecordOf(blk, s), c.offset), c.val, c.attrType))
  }

  /** A place in a scan: slot `slot` of the block at index `idx` of the path. */
  datatype Pos = Pos(idx: int, slot: int)

  /** Place p comes strictly before place q in a scan. */
  predicate Before(p: Pos, q: Pos) {
    p.idx < q.idx || (p.idx == q.idx && p.slot < q.slot)
  }

  predicate InDisk(p: seq<int>) {
    forall i :: 0 <= i < |p| ==> 0 <= p[i] < DISK_BLOCKS
  }

  predicate NoRepeats(p: seq<int>) {
    forall i, j :: 0 <= i < j < |p| ==> p[i] != p[j]
  }

  /**
   * From index k on, p is the chain followed by rblock: every block is well formed, each
   * block's rblock is the next one and the last block's rblock is -1.
   */
  predicate PathFrom(blocks: seq<RecBlock>, p: seq<int>, k: int) {
    && |blocks| == DISK_BLOCKS && InDisk(p) && 0 <= k <= |p|
    && (forall i :: k <= i < |p| ==> BlockOk(blocks[p[i]]))
    && (forall i :: k <= i < |p| - 1 ==> blocks[p[i]].head.rblock == p[i + 1])
    && (k < |p| ==> blocks[p[|p| - 1]].head.rblock == -1)
  }

  /** The number of slots of the block at index k of the path, or 0 past its end. */
  function SlotsAt(blocks: seq<RecBlock>, p: seq<int>, k: int): int
    requires |blocks| == DISK_BLOCKS && InDisk(p)
  {
    if 0 <= k < |p| then blocks[p[k]].head.numSlots else 0
  }

  /** Place q lies on the path, inside its block, at or after place (k, from), and matches. */
  predicate HitAfter(blocks: seq<RecBlock>, p: seq<int>, k: int, from: int, c: Cond, q: Pos)
    requires |blocks| == DISK_BLOCKS && InDisk(p)
  {
    && 0 <= k <= q.idx < |p| && 0 <= q.slot < blocks[p[q.idx]].head.numSlots
    && (q.idx > k || q.slot >= from)
    && Matches(blocks[p[q.idx]], q.slot, c)
  }

  /**
   * The places a scan starting at slot `from` of the block at index k reports, in the order
   * it reports them: within a block slot by slot up to numSlots, then on to the next block.
   */
  function Hits(blocks: seq<RecBlock>, p: seq<int>, k: nat, from: nat, c: Cond): (h: seq<Pos>)
    requires |blocks| == DISK_BLOCKS && InDisk(p) && k <= |p|
    ensures forall i :: 0 <= i < |h| ==> k <= h[i].idx < |p| && 0 <= h[i].slot
    decreases |p| - k, if k < |p| && from < blocks[p[k]].head.numSlots then blocks[p[k]].head.numSlots - from else 0
  {
    if k == |p| then []
    else if from >= blocks[p[k]].head.numSlots then Hits(blocks, p, k + 1, 0, c)
    else if Matches(blocks[p[k]], from, c) then [Pos(k, from)] + Hits(blocks, p, k, from + 1, c)
    else Hits(blocks, p, k, from + 1, c)
  }

  /** Every place a scan reports is a matching place at or after its start. */
  lemma {:induction false} HitsSound(blocks: seq<RecBlock>, p: seq<int>, k: nat, from: nat, c: Cond)
    requires |blocks| == DISK_BLOCKS && InDisk(p) && k <= |p|
    ensures forall q :: q in Hits(blocks, p, k, from, c) ==> HitAfter(blocks, p, k, from, c, q)
    decreases |p| - k, if k < |p| && from < blocks[p[k]].head.numSlots then blocks[p[k]].head.numSlots - from else 0
  {
    if k < |p| {
      if from >= blocks[p[k]].head.numSlots {
        HitsSound(blocks, p, k + 1, 0, c);
      } else {
        HitsSound(blocks, p, k, from + 1, c);
      }
    }
  }

  /** Every matching place at or after its start is reported by a scan. */
  lemma {:induction false} HitsComplete(blocks: seq<RecBlock>, p: seq<int>, k: nat, from: nat, c: Cond, q: Pos)
    requires |blocks| == DISK_BLOCKS && InDisk(p) && k <= |p|
    requires HitAfter(blocks, p, k, from, c, q)
    ensures q in Hits(blocks, p, k, from, c)
    decreases |p| - k, if k < |p| && from < blocks[p[k]].head.numSlots then blocks[p[k]].head.numSlots - from else 0
  {
    if from >= blocks[p[k]].head.numSlots {
      HitsComplete(blocks, p, k + 1, 0, c, q);
    } else if q != Pos(k, from) {
      HitsComplete(blocks, p, k, from + 1, c, q);
    }
  }

  /** Places in strictly increasing scan order. */
  predicate Ordered(h: seq<Pos>) {
    forall i, j :: 0 <= i < j < |h| ==> Before(h[i], h[j])
  }

  /** A scan reports places in strictly increasing scan order, so none twice. */
  lemma {:induction false} HitsOrdered(blocks: seq<RecBlock>, p: seq<int>, k: nat, from: nat, c: Cond)
    requires |blocks| == DISK_BLOCKS && InDisk(p) && k <= |p|
    ensures Ordered(Hits(blocks, p, k, from, c))
    decreases |p| - k, if k < |p| && from < blocks[p[k]].head.numSlots then blocks[p[k]].head.numSlots - from else 0
  {
    if k < |p| {
      if from >= blocks[p[k]].head.numSlots {
        HitsOrdered(blocks, p, k + 1, 0, c);
      } else {
        var rest := Hits(blocks, p, k, from + 1, c);
        HitsOrdered(blocks, p, k, from + 1, c);
        if Matches(blocks[p[k]], from, c) {
          HitsSound(blocks, p, k, from + 1, c);
          var h := [Pos(k, from)] + rest;
          assert Hits(blocks, p, k, from, c) == h;
          forall i, j | 0 <= i < j < |h|
            ensures Before(h[i], h[j])
          {
            assert h[j] == rest[j - 1];
            if i > 0 {
              assert h[i] == rest[i - 1];
            } else {
              assert rest[j - 1] in rest;
              assert HitAfter(blocks, p, k, from + 1, c, rest[j - 1]);
            }
          }
        }
      }
    }
  }

  /**
   * The first place a scan reports is the first matching place at or after its start, and a
   * scan reports nothing exactly when there is no such place.
   */
  lemma HitsFirst(blocks: seq<RecBlock>, p: seq<int>, k: nat, from: nat, c: Cond)
    requires |blocks| == DISK_BLOCKS && InDisk(p) && k <= |p|
    ensures var h := Hits(blocks, p, k, from, c);
      && (h == [] <==> forall q :: !HitAfter(blocks, p, k, from, c, q))
      && (h != [] ==> HitAfter(blocks, p, k, from, c, h[0]))
      && (h != [] ==> forall q :: HitAfter(blocks, p, k, from, c, q) ==> q == h[0] || Before(h[0], q))
  {
    var h := Hits(blocks, p, k, from, c);
    HitsSound(blocks, p, k, from, c);
    HitsOrdered(blocks, p, k, from, c);
    forall q | HitAfter(blocks, p, k, from, c, q)
      ensures h != [] && (q == h[0] || Before(h[0], q))
    {
      HitsComplete(blocks, p, k, from, c, q);
      var i :| 0 <= i < |h| && h[i] == q;
      if i > 0 {
        assert Before(h[0], h[i]);
      }
    }
    if h != [] {
      assert h[0] in h;
    }
  }

  /**
   * Resuming a scan just after its first hit reports the rest of its hits: this is what
   * makes a cursor-driven sequence of linearSearch calls enumerate every hit once, in order.
   */
  lemma {:induction false} HitsResume(blocks: seq<RecBlock>, p: seq<int>, k: nat, from: nat, c: Cond)
    requires |blocks| == DISK_BLOCKS && InDisk(p) && k <= |p|
    requires Hits(blocks, p, k, from, c) != []
    ensures var h := Hits(blocks, p, k, from, c);
      0 <= h[0].idx < |p| && h[0].slot >= 0 && Hits(blocks, p, h[0].idx, h[0].slot + 1, c) == h[1..]
    decreases |p| - k, if k < |p| && from < blocks[p[k]].head.numSlots then blocks[p[k]].head.numSlots - from else 0
  {
    if from >= blocks[p[k]].head.numSlots {
      HitsResume(blocks, p, k + 1, 0, c);
    } else if !Matches(blocks[p[k]], from, c) {
      HitsResume(blocks, p, k, from + 1, c);
    }
  }

  /**
   * Two views agree on block b from slot `from` on: same number of slots, and the same
   * verdict of the condition on each of those slots.
   */
  predicate SameFrom(b1: seq<RecBlock>, b2: seq<RecBlock>, b: int, from: int, c: Cond)
    requires |b1| == DISK_BLOCKS && |b2| == DISK_BLOCKS && 0 <= b < DISK_BLOCKS
  {
    && b1[b].head.numSlots == b2[b].head.numSlots
    && forall s :: from <= s < b1[b].head.numSlots ==> Matches(b1[b], s, c) == Matches(b2[b], s, c)
  }

  /** Two views on which a scan from slot `from` of the block at index k reports the same places. */
  predicate SameScan(b1: seq<RecBlock>, b2: seq<RecBlock>, p: seq<int>, k: nat, from: nat, c: Cond)
    requires |b1| == DISK_BLOCKS && |b2| == DISK_BLOCKS && InDisk(p) && k <= |p|
  {
    Hits(b1, p, k, from, c) == Hits(b2, p, k, from, c)
  }

  /** A scan only depends on the blocks it has still to visit, and on those only from its start. */
  lemma {:induction false} HitsFrame(b1: seq<RecBlock>, b2: seq<RecBlock>, p: seq<int>, k: nat, from: nat, c: Cond)
    requires |b1| == DISK_BLOCKS && |b2| == DISK_BLOCKS && InDisk(p) && k <= |p|
    requires k < |p| ==> SameFrom(b1, b2, p[k], from, c)
    requires forall i :: k < i < |p| ==> SameFrom(b1, b2, p[i], 0, c)
    ensures Hits(b1, p, k, from, c) == Hits(b2, p, k, from, c)
    decreases |p| - k, if k < |p| && from < b1[p[k]].head.numSlots then b1[p[k]].head.numSlots - from else 0
  {
    if k < |p| {
      if from >= b1[p[k]].head.numSlots {
        HitsFrame(b1, b2, p, k + 1, 0, c);
      } else {
        HitsFrame(b1, b2, p, k, from + 1, c);
      }
    }
  }

  /**
   * One step of a scan inside a block: a matching slot is reported first, any other slot is
   * passed over.
   */
  lemma HitsStep(blocks: seq<RecBlock>, p: seq<int>, k: nat, from: nat, c: Cond)
    requires |blocks| == DISK_BLOCKS && InDisk(p) && k < |p|
    requires from < blocks[p[k]].head.numSlots
    ensures Matches(blocks[p[k]], from, c) ==> Hits(blocks, p, k, from, c) == [Pos(k, from)] + Hits(blocks, p, k, from + 1, c)
    ensures !Matches(blocks[p[k]], from, c) ==> Hits(blocks, p, k, from, c) == Hits(blocks, p, k, from + 1, c)
  {
  }
}
