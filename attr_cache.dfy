/**
 * The attribute cache (AttrCacheTable.cpp): for every open-relation id an optional list of
 * attribute entries in declaration order, each with the attribute-catalog metadata, a dirty
 * flag, the location of the catalog record and a per-attribute search cursor. The source's
 * singly linked list is a sequence here.
 */
module AttrCache {
  import opened Defs
  import BlockBuffer

  datatype AttrCacheEntry = AttrCacheEntry(
    attrCatEntry: AttrCatEntry,
    dirty: bool,
    recId: RecId,
    searchIndex: IndexId)

  /**
   * recordToAttrCatEntry: the attribute-catalog fields of a record by their catalog
   * positions; the primary flag is any non-zero number.
   */
  function RecordToAttrCatEntry(rec: seq<Attr>): AttrCatEntry {
    AttrCatEntry(
      AsStr(Field(rec, ATTRCAT_REL_NAME_INDEX)),
      AsStr(Field(rec, ATTRCAT_ATTR_NAME_INDEX)),
      AsNum(Field(rec, ATTRCAT_ATTR_TYPE_INDEX)),
      AsNum(Field(rec, ATTRCAT_PRIMARY_FLAG_INDEX)) != 0,
      AsNum(Field(rec, ATTRCAT_ROOT_BLOCK_INDEX)),
      AsNum(Field(rec, ATTRCAT_OFFSET_INDEX)))
  }

  /** The record an attribute-catalog entry is stored as (primary flag as 1 or 0). */
  function AttrCatEntryToRecord(e: AttrCatEntry): (rec: seq<Attr>)
    ensures |rec| == ATTRCAT_NO_ATTRS
  {
    [Str(e.relName), Str(e.attrName), Num(e.attrType), Num(if e.primaryFlag then 1 else 0),
     Num(e.rootBlock), Num(e.offset)]
  }

  /** Decoding a stored entry gives the entry back. */
  lemma AttrCatEntryRoundTrip(e: AttrCatEntry)
    ensures RecordToAttrCatEntry(AttrCatEntryToRecord(e)) == e
  {
  }

  // ---- Lookups over one relation's list ----

  /** Entry e is named `name` as strcmp decides it. */
  predicate NamedAs(e: AttrCacheEntry, name: string) {
    BlockBuffer.StrCmp(e.attrCatEntry.attrName, name) == 0
  }

  /**
   * The first entry at or after `from` named `name`, or -1 (the by-name traversal, which
   * compares names with strcmp).
   */
  function FirstNamed(l: seq<AttrCacheEntry>, name: string, from: nat): (r: int)
    requires from <= |l|
    ensures r == -1 || (from <= r < |l| && NamedAs(l[r], name))
    ensures forall j :: from <= j < |l| && (r == -1 || j < r) ==> !NamedAs(l[j], name)
    decreases |l| - from
  {
    if from == |l| then -1
    else if NamedAs(l[from], name) then from
    else FirstNamed(l, name, from + 1)
  }

  /** The first entry at or after `from` with offset `offset`, or -1 (the by-offset traversal). */
  function FirstAtOffset(l: seq<AttrCacheEntry>, offset: int, from: nat): (r: int)
    requires from <= |l|
    ensures r == -1 || (from <= r < |l| && l[r].attrCatEntry.offset == offset)
    ensures forall j :: from <= j < |l| && (r == -1 || j < r) ==> l[j].attrCatEntry.offset != offset
    decreases |l| - from
  {
    if from == |l| then -1
    else if l[from].attrCatEntry.offset == offset then from
    else FirstAtOffset(l, offset, from + 1)
  }

  /**
   * The buffer after the by-offset loop of getAttrCatEntry has run over l[..n]: every
   * matching entry overwrites it, so it ends holding the last match, or `buf` untouched.
   */
  function CopyMatches(l: seq<AttrCacheEntry>, offset: int, buf: AttrCatEntry, n: nat): (r: AttrCatEntry)
    requires n <= |l|
    ensures (exists j :: 0 <= j < n && l[j].attrCatEntry.offset == offset) ==>
      exists j :: 0 <= j < n && l[j].attrCatEntry.offset == offset && r == l[j].attrCatEntry &&
        forall k :: j < k < n ==> l[k].attrCatEntry.offset != offset
    ensures (forall j :: 0 <= j < n ==> l[j].attrCatEntry.offset != offset) ==> r == buf
  {
    if n == 0 then buf
    else if l[n - 1].attrCatEntry.offset == offset then l[n - 1].attrCatEntry
    else CopyMatches(l, offset, buf, n - 1)
  }

  /** The list with the cursor of entry i replaced and every other entry and field kept. */
  function WithCursor(l: seq<AttrCacheEntry>, i: int, idx: IndexId): (r: seq<AttrCacheEntry>)
    requires 0 <= i < |l|
    ensures |r| == |l| && r[i].searchIndex == idx && r[i].attrCatEntry == l[i].attrCatEntry
    ensures r[i].dirty == l[i].dirty && r[i].recId == l[i].recId
    ensures forall j :: 0 <= j < |l| && j != i ==> r[j] == l[j]
  {
    l[i := l[i].(searchIndex := idx)]
  }

  /** The list of an open relation, or the error every lookup reports first. */
  function ListOf(t: seq<Option<seq<AttrCacheEntry>>>, relId: int): (r: Result<seq<AttrCacheEntry>>)
    ensures !(0 <= relId < |t|) ==> r == Err(OutOfBound)
    ensures 0 <= relId < |t| && t[relId].None? ==> r == Err(RelNotOpen)
    ensures 0 <= relId < |t| && t[relId].Some? ==> r == Ok(t[relId].value)
  {
    if !(0 <= relId < |t|) then Err(OutOfBound)
    else if t[relId].None? then Err(RelNotOpen)
    else Ok(t[relId].value)
  }

  /** The table after setSearchIndex by name: the first entry so named gets the cursor. */
  function SetNamedCursor(t: seq<Option<seq<AttrCacheEntry>>>, relId: int, name: string, idx: IndexId): (r: (Status, seq<Option<seq<AttrCacheEntry>>>))
  {
    var l := ListOf(t, relId);
    if l.Err? then (l.status, t)
    else
      var i := FirstNamed(l.value, name, 0);
      if i == -1 then (AttrNotExist, t) else (Success, t[relId := Some(WithCursor(l.value, i, idx))])
  }

  /** The table after setSearchIndex by offset: the first entry at that offset gets the cursor. */
  function SetOffsetCursor(t: seq<Option<seq<AttrCacheEntry>>>, relId: int, offset: int, idx: IndexId): (r: (Status, seq<Option<seq<AttrCacheEntry>>>))
  {
    var l := ListOf(t, relId);
    if l.Err? then (l.status, t)
    else
      var i := FirstAtOffset(l.value, offset, 0);
      if i == -1 then (AttrNotExist, t) else (Success, t[relId := Some(WithCursor(l.value, i, idx))])
  }

  /** getAttrCatEntry by name over a table snapshot. */
  function NamedEntry(t: seq<Option<seq<AttrCacheEntry>>>, relId: int, name: string): (r: Result<AttrCatEntry>)
    ensures ListOf(t, relId).Err? ==> r == Err(ListOf(t, relId).status)
    ensures ListOf(t, relId).Ok? ==>
      var l := ListOf(t, relId).value;
      && (r.Ok? <==> exists j :: 0 <= j < |l| && NamedAs(l[j], name))
      && (r.Ok? ==> BlockBuffer.StrCmp(r.value.attrName, name) == 0 && exists j :: (0 <= j < |l| && l[j].attrCatEntry == r.value &&
            forall k :: 0 <= k < j ==> !NamedAs(l[k], name)))
      && (r.Err? ==> r.status == AttrNotExist)
  {
    var l := ListOf(t, relId);
    if l.Err? then Err(l.status)
    else
      var i := FirstNamed(l.value, name, 0);
      if i == -1 then Err(AttrNotExist) else Ok(l.value[i].attrCatEntry)
  }

  /** getSearchIndex by name over a table snapshot. */
  function NamedCursor(t: seq<Option<seq<AttrCacheEntry>>>, relId: int, name: string): (r: Result<IndexId>)
    ensures ListOf(t, relId).Err? ==> r == Err(ListOf(t, relId).status)
    ensures ListOf(t, relId).Ok? ==>
      var l := ListOf(t, relId).value;
      var i := FirstNamed(l, name, 0);
      && (i == -1 ==> r == Err(AttrNotExist))
      && (i != -1 ==> r == Ok(l[i].searchIndex))
  {
    var l := ListOf(t, relId);
    if l.Err? then Err(l.status)
    else
      var i := FirstNamed(l.value, name, 0);
      if i == -1 then Err(AttrNotExist) else Ok(l.value[i].searchIndex)
  }

  /** getSearchIndex by offset over a table snapshot. */
  function OffsetCursor(t: seq<Option<seq<AttrCacheEntry>>>, relId: int, offset: int): (r: Result<IndexId>)
    ensures ListOf(t, relId).Err? ==> r == Err(ListOf(t, relId).status)
    ensures ListOf(t, relId).Ok? ==>
      var l := ListOf(t, relId).value;
      var i := FirstAtOffset(l, offset, 0);
      && (i == -1 ==> r == Err(AttrNotExist))
      && (i != -1 ==> r == Ok(l[i].searchIndex))
  {
    var l := ListOf(t, relId);
    if l.Err? then Err(l.status)
    else
      var i := FirstAtOffset(l.value, offset, 0);
      if i == -1 then Err(AttrNotExist) else Ok(l.value[i].searchIndex)
  }

  /** Setting a cursor by name and reading it back by the same name gives the value set. */
  lemma SetThenGetNamedCursor(t: seq<Option<seq<AttrCacheEntry>>>, relId: int, name: string, idx: IndexId)
    requires SetNamedCursor(t, relId, name, idx).0 == Success
    ensures NamedCursor(SetNamedCursor(t, relId, name, idx).1, relId, name) == Ok(idx)
  {
    var l := t[relId].value;
    var i := FirstNamed(l, name, 0);
    var l' := WithCursor(l, i, idx);
    assert forall j :: 0 <= j < |l| ==> l'[j].attrCatEntry == l[j].attrCatEntry;
    FirstNamedSameNames(l, l', name, 0);
  }

  /** Setting a cursor by offset and reading it back by the same offset gives the value set. */
  lemma SetThenGetOffsetCursor(t: seq<Option<seq<AttrCacheEntry>>>, relId: int, offset: int, idx: IndexId)
    requires SetOffsetCursor(t, relId, offset, idx).0 == Success
    ensures OffsetCursor(SetOffsetCursor(t, relId, offset, idx).1, relId, offset) == Ok(idx)
  {
    var l := t[relId].value;
    var i := FirstAtOffset(l, offset, 0);
    var l' := WithCursor(l, i, idx);
    assert forall j :: 0 <= j < |l| ==> l'[j].attrCatEntry == l[j].attrCatEntry;
    FirstAtOffsetSameOffsets(l, l', offset, 0);
  }

  /** Lists with the same metadata find the same entry by name. */
  lemma {:induction false} FirstNamedSameNames(l: seq<AttrCacheEntry>, l': seq<AttrCacheEntry>, name: string, from: nat)
    requires from <= |l| == |l'|
    requires forall j :: 0 <= j < |l| ==> l'[j].attrCatEntry == l[j].attrCatEntry
    ensures FirstNamed(l', name, from) == FirstNamed(l, name, from)
    decreases |l| - from
  {
    if from < |l| {
      FirstNamedSameNames(l, l', name, from + 1);
    }
  }

  /** Lists with the same metadata find the same entry by offset. */
  lemma {:induction false} FirstAtOffsetSameOffsets(l: seq<AttrCacheEntry>, l': seq<AttrCacheEntry>, offset: int, from: nat)
    requires from <= |l| == |l'|
    requires forall j :: 0 <= j < |l| ==> l'[j].attrCatEntry == l[j].attrCatEntry
    ensures FirstAtOffset(l', offset, from) == FirstAtOffset(l, offset, from)
    decreases |l| - from
  {
    if from < |l| {
      FirstAtOffsetSameOffsets(l, l', offset, from + 1);
    }
  }

  class AttrCacheTable {
    const attrCache: array<Option<seq<AttrCacheEntry>>>

    ghost predicate Valid()
      reads this
    {
      attrCache.Length == MAX_OPEN
    }

    /** A table with every slot empty. */
    constructor ()
      ensures Valid() && fresh(attrCache)
      ensures forall i :: 0 <= i < MAX_OPEN ==> attrCache[i].None?
    {
      attrCache := new Option<seq<AttrCacheEntry>>[MAX_OPEN](_ => None);
    }

    /**
     * getAttrCatEntry by name: walks relation relId's list and returns the first entry that
     * strcmp finds named attrName; E_ATTRNOTEXIST when there is none.
     */
    method GetAttrCatEntry(relId: int, attrName: string) returns (r: Result<AttrCatEntry>)
      requires Valid()
      ensures r == NamedEntry(attrCache[..], relId, attrName)
    {
      if relId < 0 || relId >= MAX_OPEN {
        return Err(OutOfBound);
      }
      if attrCache[relId].None? {
        return Err(RelNotOpen);
      }
      var l := attrCache[relId].value;
      var i := 0;
      while i < |l|
        invariant 0 <= i <= |l|
        invariant FirstNamed(l, attrName, 0) == FirstNamed(l, attrName, i)
      {
        if BlockBuffer.StrCmp(l[i].attrCatEntry.attrName, attrName) == 0 {
          return Ok(l[i].attrCatEntry);
        }
        i := i + 1;
      }
      return Err(AttrNotExist);
    }

    /**
     * getAttrCatEntry by offset, as written: the loop copies every entry at that offset into
     * the caller's buffer, so the buffer ends with the last match, and the status is
     * E_ATTRNOTEXIST whether or not there was one.
     */
    function GetAttrCatEntryByOffset(relId: int, attrOffset: int, buf: AttrCatEntry): (r: (Status, AttrCatEntry))
      reads this, attrCache
      ensures ListOf(attrCache[..], relId).Err? ==> r == (ListOf(attrCache[..], relId).status, buf)
      ensures ListOf(attrCache[..], relId).Ok? ==>
        r == (AttrNotExist, CopyMatches(attrCache[relId].value, attrOffset, buf, |attrCache[relId].value|))
      ensures r.0 != Success
    {
      var l := ListOf(attrCache[..], relId);
      if l.Err? then (l.status, buf)
      else (AttrNotExist, CopyMatches(l.value, attrOffset, buf, |l.value|))
    }

    /**
     * getAttrCatEntry by offset as the comment "there is no attribute at this offset"
     * intends: SUCCESS with the first entry at that offset, E_ATTRNOTEXIST only when none is.
     */
    function GetAttrCatEntryAtOffset(relId: int, attrOffset: int): (r: Result<AttrCatEntry>)
      reads this, attrCache
      ensures ListOf(attrCache[..], relId).Err? ==> r == Err(ListOf(attrCache[..], relId).status)
      ensures ListOf(attrCache[..], relId).Ok? ==>
        var l := attrCache[relId].value;
        && (r.Ok? <==> exists j :: 0 <= j < |l| && l[j].attrCatEntry.offset == attrOffset)
        && (r.Ok? ==> r.value.offset == attrOffset && exists j :: (0 <= j < |l| && l[j].attrCatEntry == r.value &&
              forall k :: 0 <= k < j ==> l[k].attrCatEntry.offset != attrOffset))
        && (r.Err? ==> r.status == AttrNotExist)
    {
      var l := ListOf(attrCache[..], relId);
      if l.Err? then Err(l.status)
      else
        var i := FirstAtOffset(l.value, attrOffset, 0);
        if i == -1 then Err(AttrNotExist) else Ok(l.value[i].attrCatEntry)
    }

    /** getSearchIndex by name: the cursor of the first entry strcmp finds named attrName. */
    method GetSearchIndex(relId: int, attrName: string) returns (r: Result<IndexId>)
      requires Valid()
      ensures r == NamedCursor(attrCache[..], relId, attrName)
    {
      if relId < 0 || relId >= MAX_OPEN {
        return Err(OutOfBound);
      }
      if attrCache[relId].None? {
        return Err(RelNotOpen);
      }
      var l := attrCache[relId].value;
      var i := 0;
      while i < |l|
        invariant 0 <= i <= |l|
        invariant FirstNamed(l, attrName, 0) == FirstNamed(l, attrName, i)
      {
        if BlockBuffer.StrCmp(l[i].attrCatEntry.attrName, attrName) == 0 {
          return Ok(l[i].searchIndex);
        }
        i := i + 1;
      }
      return Err(AttrNotExist);
    }

    /** getSearchIndex by offset: the cursor of the first entry at attrOffset. */
    method GetSearchIndexAt(relId: int, attrOffset: int) returns (r: Result<IndexId>)
      requires Valid()
      ensures r == OffsetCursor(attrCache[..], relId, attrOffset)
    {
      if relId < 0 || relId >= MAX_OPEN {
        return Err(OutOfBound);
      }
      if attrCache[relId].None? {
        return Err(RelNotOpen);
      }
      var l := attrCache[relId].value;
      var i := 0;
      while i < |l|
        invariant 0 <= i <= |l|
        invariant FirstAtOffset(l, attrOffset, 0) == FirstAtOffset(l, attrOffset, i)
      {
        if l[i].attrCatEntry.offset == attrOffset {
          return Ok(l[i].searchIndex);
        }
        i := i + 1;
      }
      return Err(AttrNotExist);
    }

    /**
     * setSearchIndex by name: walks the list and gives the first entry strcmp finds named
     * attrName the cursor `idx`; no other entry and no other field changes.
     */
    method SetSearchIndex(relId: int, attrName: string, idx: IndexId) returns (s: Status)
      requires Valid()
      modifies attrCache
      ensures (s, attrCache[..]) == SetNamedCursor(old(attrCache[..]), relId, attrName, idx)
    {
      if relId < 0 || relId >= MAX_OPEN {
        return OutOfBound;
      }
      if attrCache[relId].None? {
        return RelNotOpen;
      }
      var l := attrCache[relId].value;
      var i := 0;
      while i < |l| && BlockBuffer.StrCmp(l[i].attrCatEntry.attrName, attrName) != 0
        invariant 0 <= i <= |l|
        invariant FirstNamed(l, attrName, 0) == FirstNamed(l, attrName, i)
      {
        i := i + 1;
      }
      if i == |l| {
        return AttrNotExist;
      }
      attrCache[relId] := Some(l[i := l[i].(searchIndex := idx)]);
      s := Success;
    }

    /**
     * setSearchIndex by offset: gives the first entry at offset attrOffset the cursor `idx`;
     * no other entry and no other field changes.
     */
    method SetSearchIndexAt(relId: int, attrOffset: int, idx: IndexId) returns (s: Status)
      requires Valid()
      modifies attrCache
      ensures (s, attrCache[..]) == SetOffsetCursor(old(attrCache[..]), relId, attrOffset, idx)
    {
      if relId < 0 || relId >= MAX_OPEN {
        return OutOfBound;
      }
      if attrCache[relId].None? {
        return RelNotOpen;
      }
      var l := attrCache[relId].value;
      var i := 0;
      while i < |l| && l[i].attrCatEntry.offset != attrOffset
        invariant 0 <= i <= |l|
        invariant FirstAtOffset(l, attrOffset, 0) == FirstAtOffset(l, attrOffset, i)
      {
        i := i + 1;
      }
      if i == |l| {
        return AttrNotExist;
      }
      attrCache[relId] := Some(l[i := l[i].(searchIndex := idx)]);
      s := Success;
    }

    /** resetSearchIndex by name: setSearchIndex with {-1, -1}, returning its status. */
    method ResetSearchIndex(relId: int, attrName: string) returns (s: Status)
      requires Valid()
      modifies attrCache
      ensures (s, attrCache[..]) == SetNamedCursor(old(attrCache[..]), relId, attrName, NO_INDEX)
    {
      s := SetSearchIndex(relId, attrName, NO_INDEX);
    }

    /** resetSearchIndex by offset: setSearchIndex with {-1, -1}, returning its status. */
    method ResetSearchIndexAt(relId: int, attrOffset: int) returns (s: Status)
      requires Valid()
      modifies attrCache
      ensures (s, attrCache[..]) == SetOffsetCursor(old(attrCache[..]), relId, attrOffset, NO_INDEX)
    {
      s := SetSearchIndexAt(relId, attrOffset, NO_INDEX);
    }
  }

  /**
   * setSearchIndex changes nothing outside the first matching entry's cursor: other
   * relations' lists, the other entries and all metadata stay as they were.
   */
  lemma SetNamedCursorFrame(t: seq<Option<seq<AttrCacheEntry>>>, relId: int, name: string, idx: IndexId)
    ensures var (s, t') := SetNamedCursor(t, relId, name, idx);
      && |t'| == |t|
      && (forall r :: 0 <= r < |t| && r != relId ==> t'[r] == t[r])
      && (s == Success <==> ListOf(t, relId).Ok? && FirstNamed(t[relId].value, name, 0) != -1)
      && (s != Success ==> t' == t)
      && (s == Success ==>
            var l := t[relId].value;
            var i := FirstNamed(l, name, 0);
            && t'[relId].Some? && |t'[relId].value| == |l|
            && t'[relId].value[i] == l[i].(searchIndex := idx)
            && forall j :: 0 <= j < |l| && j != i ==> t'[relId].value[j] == l[j])
  {
  }

  /**
   * A relation whose one attribute sits at the requested offset: the by-offset lookup as
   * written copies that attribute but reports E_ATTRNOTEXIST; the intended lookup succeeds.
   */
  lemma ByOffsetLookupMissesItsHit(t: AttrCacheTable, relId: int, e: AttrCatEntry, buf: AttrCatEntry)
    requires t.Valid() && 0 <= relId < MAX_OPEN
    requires t.attrCache[relId] == Some([AttrCacheEntry(e, false, RecId(ATTRCAT_BLOCK, 0), NO_INDEX)])
    ensures t.GetAttrCatEntryByOffset(relId, e.offset, buf) == (AttrNotExist, e)
    ensures t.GetAttrCatEntryAtOffset(relId, e.offset) == Ok(e)
  {
  }
}
