/**
 * The relation cache: one optional entry per open-relation id, holding the relation-catalog
 * metadata, a dirty flag, the location of the catalog record and the relation's
 * linear-search cursor. Its implementation file is not part of this model; the operations
 * below are the contracts the block-access layer and the open-relation table rely on.
 */
module RelCache {
  import opened Defs

  datatype RelCacheEntry = RelCacheEntry(
    relCatEntry: RelCatEntry,
    dirty: bool,
    recId: RecId,
    searchIndex: RecId)

  /** The relation-catalog fields of a record, by their catalog positions. */
  function RecordToRelCatEntry(rec: seq<Attr>): RelCatEntry {
    RelCatEntry(
      AsStr(Field(rec, RELCAT_REL_NAME_INDEX)),
      AsNum(Field(rec, RELCAT_NO_ATTRIBUTES_INDEX)),
      AsNum(Field(rec, RELCAT_NO_RECORDS_INDEX)),
      AsNum(Field(rec, RELCAT_FIRST_BLOCK_INDEX)),
      AsNum(Field(rec, RELCAT_LAST_BLOCK_INDEX)),
      AsNum(Field(rec, RELCAT_NO_SLOTS_PER_BLOCK_INDEX)))
  }

  /** The record a relation-catalog entry is stored as. */
  function RelCatEntryToRecord(e: RelCatEntry): (rec: seq<Attr>)
    ensures |rec| == RELCAT_NO_ATTRS
  {
    [Str(e.relName), Num(e.numAttrs), Num(e.numRecs), Num(e.firstBlk), Num(e.lastBlk), Num(e.numSlotsPerBlk)]
  }

  /** A well-typed relation-catalog record: a name followed by five numbers. */
  predicate RelCatRecordOk(rec: seq<Attr>) {
    && |rec| == RELCAT_NO_ATTRS
    && rec[RELCAT_REL_NAME_INDEX].Str?
    && forall i :: RELCAT_NO_ATTRIBUTES_INDEX <= i < RELCAT_NO_ATTRS ==> rec[i].Num?
  }

  /** Decoding a stored entry gives the entry back. */
  lemma RelCatEntryRoundTrip(e: RelCatEntry)
    ensures RelCatRecordOk(RelCatEntryToRecord(e))
    ensures RecordToRelCatEntry(RelCatEntryToRecord(e)) == e
  {
  }

  /** Encoding a decoded well-typed record gives the record back. */
  lemma RelCatRecordRoundTrip(rec: seq<Attr>)
    requires RelCatRecordOk(rec)
    ensures RelCatEntryToRecord(RecordToRelCatEntry(rec)) == rec
  {
    var r := RelCatEntryToRecord(RecordToRelCatEntry(rec));
    assert forall i :: 0 <= i < RELCAT_NO_ATTRS ==> r[i] == rec[i] by {
      assert rec[1].Num? && rec[2].Num? && rec[3].Num? && rec[4].Num? && rec[5].Num?;
    }
  }

  /** The entry of an open relation, or the error getRelCatEntry reports. */
  function EntryOf(t: seq<Option<RelCacheEntry>>, relId: int): (r: Result<RelCacheEntry>)
    ensures r.Ok? <==> 0 <= relId < |t| && t[relId].Some?
    ensures r.Ok? ==> r.value == t[relId].value
    ensures !(0 <= relId < |t|) ==> r == Err(OutOfBound)
    ensures 0 <= relId < |t| && t[relId].None? ==> r == Err(RelNotOpen)
  {
    if !(0 <= relId < |t|) then Err(OutOfBound)
    else if t[relId].None? then Err(RelNotOpen)
    else Ok(t[relId].value)
  }

  /** The table with relation relId's catalog entry replaced and the entry marked dirty. */
  function WithRelCatEntry(t: seq<Option<RelCacheEntry>>, relId: int, e: RelCatEntry): seq<Option<RelCacheEntry>>
    requires EntryOf(t, relId).Ok?
  {
    t[relId := Some(t[relId].value.(relCatEntry := e, dirty := true))]
  }

  /** The table with relation relId's search cursor replaced. */
  function WithSearchIndex(t: seq<Option<RelCacheEntry>>, relId: int, idx: RecId): seq<Option<RelCacheEntry>>
    requires EntryOf(t, relId).Ok?
  {
    t[relId := Some(t[relId].value.(searchIndex := idx))]
  }

  class RelCacheTable {
    const relCache: array<Option<RelCacheEntry>>

    ghost predicate Valid()
      reads this
    {
      relCache.Length == MAX_OPEN
    }

    /** A table with every slot empty. */
    constructor ()
      ensures Valid() && fresh(relCache)
      ensures forall i :: 0 <= i < MAX_OPEN ==> relCache[i].None?
    {
      relCache := new Option<RelCacheEntry>[MAX_OPEN](_ => None);
    }

    /** getRelCatEntry: the cached catalog entry of relation relId. */
    function GetRelCatEntry(relId: int): (r: Result<RelCatEntry>)
      reads this, relCache
      ensures EntryOf(relCache[..], relId).Ok? ==> r == Ok(EntryOf(relCache[..], relId).value.relCatEntry)
      ensures EntryOf(relCache[..], relId).Err? ==> r == Err(EntryOf(relCache[..], relId).status)
    {
      var e := EntryOf(relCache[..], relId);
      if e.Ok? then Ok(e.value.relCatEntry) else Err(e.status)
    }

    /** getSearchIndex: the cursor of relation relId's last linear-search hit. */
    function GetSearchIndex(relId: int): (r: Result<RecId>)
      reads this, relCache
      ensures EntryOf(relCache[..], relId).Ok? ==> r == Ok(EntryOf(relCache[..], relId).value.searchIndex)
      ensures EntryOf(relCache[..], relId).Err? ==> r == Err(EntryOf(relCache[..], relId).status)
    {
      var e := EntryOf(relCache[..], relId);
      if e.Ok? then Ok(e.value.searchIndex) else Err(e.status)
    }

    /** setRelCatEntry: replaces the catalog entry of an open relation and marks it dirty. */
    method SetRelCatEntry(relId: int, e: RelCatEntry) returns (s: Status)
      requires Valid()
      modifies relCache
      ensures EntryOf(old(relCache[..]), relId).Ok? ==>
        s == Success && relCache[..] == WithRelCatEntry(old(relCache[..]), relId, e)
      ensures EntryOf(old(relCache[..]), relId).Err? ==>
        s == EntryOf(old(relCache[..]), relId).status && relCache[..] == old(relCache[..])
    {
      if relId < 0 || relId >= MAX_OPEN {
        return OutOfBound;
      }
      if relCache[relId].None? {
        return RelNotOpen;
      }
      relCache[relId] := Some(relCache[relId].value.(relCatEntry := e, dirty := true));
      s := Success;
    }

    /** setSearchIndex: replaces the search cursor of an open relation. */
    method SetSearchIndex(relId: int, idx: RecId) returns (s: Status)
      requires Valid()
      modifies relCache
      ensures EntryOf(old(relCache[..]), relId).Ok? ==>
        s == Success && relCache[..] == WithSearchIndex(old(relCache[..]), relId, idx)
      ensures EntryOf(old(relCache[..]), relId).Err? ==>
        s == EntryOf(old(relCache[..]), relId).status && relCache[..] == old(relCache[..])
    {
      if relId < 0 || relId >= MAX_OPEN {
        return OutOfBound;
      }
      if relCache[relId].None? {
        return RelNotOpen;
      }
      relCache[relId] := Some(relCache[relId].value.(searchIndex := idx));
      s := Success;
    }

    /** resetSearchIndex: sets the cursor to {-1, -1}, so the next scan starts afresh. */
    method ResetSearchIndex(relId: int) returns (s: Status)
      requires Valid()
      modifies relCache
      ensures EntryOf(old(relCache[..]), relId).Ok? ==>
        s == Success && relCache[..] == WithSearchIndex(old(relCache[..]), relId, NO_REC)
      ensures EntryOf(old(relCache[..]), relId).Err? ==>
        s == EntryOf(old(relCache[..]), relId).status && relCache[..] == old(relCache[..])
    {
      s := SetSearchIndex(relId, NO_REC);
    }
  }

  /** A second cursor set on the same relation overrides the first. */
  lemma SearchIndexOverride(t: seq<Option<RelCacheEntry>>, relId: int, a: RecId, b: RecId)
    requires EntryOf(t, relId).Ok?
    ensures WithSearchIndex(WithSearchIndex(t, relId, a), relId, b) == WithSearchIndex(t, relId, b)
  {
  }

  /** A cursor set on one relation is read back there and no other relation's entry moves. */
  lemma SetThenGetSearchIndex(t: seq<Option<RelCacheEntry>>, relId: int, idx: RecId, other: int)
    requires EntryOf(t, relId).Ok?
    ensures EntryOf(WithSearchIndex(t, relId, idx), relId) == Ok(t[relId].value.(searchIndex := idx))
    ensures other != relId ==> EntryOf(WithSearchIndex(t, relId, idx), other) == EntryOf(t, other)
  {
  }
}
