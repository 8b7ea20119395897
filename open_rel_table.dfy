/**
 * The open-relation table (OpenRelTable.cpp): its constructor fills the relation cache and
 * the attribute cache from fixed slots of the two catalog blocks, its destructor empties
 * both caches, and getRelId maps the two catalog names to their fixed ids.
 */
module OpenRelTable {
  import opened Defs
  import opened RecordStore
  import opened RelCache
  import opened AttrCache
  import BlockBuffer

  /** The relation-cache entry built from relation-catalog slot `slot`. */
  function CatalogRelEntry(blocks: seq<RecBlock>, slot: int): RelCacheEntry
    requires |blocks| == DISK_BLOCKS
  {
    RelCacheEntry(RecordToRelCatEntry(RecordOf(blocks[RELCAT_BLOCK], slot)), false, RecId(RELCAT_BLOCK, slot), NO_REC)
  }

  /** The attribute-cache entry built from attribute-catalog slot `slot`. */
  function CatalogAttrEntry(blocks: seq<RecBlock>, slot: int): AttrCacheEntry
    requires |blocks| == DISK_BLOCKS
  {
    AttrCacheEntry(RecordToAttrCatEntry(RecordOf(blocks[ATTRCAT_BLOCK], slot)), false, RecId(ATTRCAT_BLOCK, slot), NO_INDEX)
  }

  /** The entries of attribute-catalog slots first .. first + n - 1, in slot order. */
  function CatalogAttrList(blocks: seq<RecBlock>, first: int, n: nat): (l: seq<AttrCacheEntry>)
    requires |blocks| == DISK_BLOCKS
    ensures |l| == n
    ensures forall i :: 0 <= i < n ==> l[i] == CatalogAttrEntry(blocks, first + i)
  {
    seq(n, i => CatalogAttrEntry(blocks, first + i))
  }

  /** The attribute count the relation-catalog record in slot 2 announces. */
  function ThirdRelAttrs(blocks: seq<RecBlock>): int
    requires |blocks| == DISK_BLOCKS
  {
    AsNum(Field(RecordOf(blocks[RELCAT_BLOCK], 2), RELCAT_NO_ATTRIBUTES_INDEX))
  }

  /**
   * The attribute list of id 2: slots 12 .. 12 + numAttrs - 1. With no attributes the loop
   * never runs and the list head left over from the attribute catalog is stored instead.
   */
  function ThirdRelAttrList(blocks: seq<RecBlock>): seq<AttrCacheEntry>
    requires |blocks| == DISK_BLOCKS
  {
    var n := ThirdRelAttrs(blocks);
    if n > 0 then CatalogAttrList(blocks, 12, n) else CatalogAttrList(blocks, 6, 6)
  }

  /**
   * getRelId: the two catalog names map to their fixed ids and every other name, opened
   * or not, gives E_RELNOTOPEN. Names are compared with strcmp, so a name matches a
   * catalog's when its characters before the first NUL are the catalog's name.
   */
  function GetRelId(relName: string): (r: Result<int>)
    ensures r == Ok(RELCAT_RELID) <==> BlockBuffer.CStr(relName) == RELCAT_RELNAME
    ensures r == Ok(ATTRCAT_RELID) <==> BlockBuffer.CStr(relName) == ATTRCAT_RELNAME
    ensures r.Err? <==> BlockBuffer.CStr(relName) != RELCAT_RELNAME && BlockBuffer.CStr(relName) != ATTRCAT_RELNAME
    ensures r.Err? ==> r.status == RelNotOpen
  {
    CatalogNamesAreCStrings();
    BlockBuffer.StrCmpZeroIffSameCStr(relName, RELCAT_RELNAME);
    BlockBuffer.StrCmpZeroIffSameCStr(relName, ATTRCAT_RELNAME);
    if BlockBuffer.StrCmp(relName, RELCAT_RELNAME) == 0 then Ok(RELCAT_RELID)
    else if BlockBuffer.StrCmp(relName, ATTRCAT_RELNAME) == 0 then Ok(ATTRCAT_RELID)
    else Err(RelNotOpen)
  }

  /** The two catalog names hold no NUL, so each is its own C string. */
  lemma CatalogNamesAreCStrings()
    ensures BlockBuffer.NulFree(RELCAT_RELNAME) && BlockBuffer.NulFree(ATTRCAT_RELNAME)
    ensures BlockBuffer.CStr(RELCAT_RELNAME) == RELCAT_RELNAME
    ensures BlockBuffer.CStr(ATTRCAT_RELNAME) == ATTRCAT_RELNAME
  {
    forall i | 0 <= i < |RELCAT_RELNAME| ensures RELCAT_RELNAME[i] != '\0' {
    }
    forall i | 0 <= i < |ATTRCAT_RELNAME| ensures ATTRCAT_RELNAME[i] != '\0' {
    }
    BlockBuffer.CStrOfNulFree(RELCAT_RELNAME);
    BlockBuffer.CStrOfNulFree(ATTRCAT_RELNAME);
  }

  /**
   * A name that continues after a NUL still reaches the relation catalog: strcmp stops at
   * the NUL, so "RELATIONCAT\0x" is the relation catalog's name.
   */
  lemma GetRelIdStopsAtNul(rest: string)
    ensures GetRelId(RELCAT_RELNAME + "\0" + rest) == Ok(RELCAT_RELID)
  {
    CatalogNamesAreCStrings();
    BlockBuffer.CStrStopsAtNul(RELCAT_RELNAME, rest);
  }

  /** Reads attribute-catalog slots first .. first + n - 1 into a list, one record at a time. */
  method ReadAttrList(blocks: seq<RecBlock>, first: int, n: nat) returns (head: seq<AttrCacheEntry>)
    requires |blocks| == DISK_BLOCKS
    ensures head == CatalogAttrList(blocks, first, n)
  {
    head := [];
    for i := first to first + n
      invariant head == CatalogAttrList(blocks, first, i - first)
    {
      var attrCatRecord := RecordOf(blocks[ATTRCAT_BLOCK], i);
      head := head + [AttrCacheEntry(RecordToAttrCatEntry(attrCatRecord), false, RecId(ATTRCAT_BLOCK, i), NO_INDEX)];
    }
  }

  /**
   * The loop that reads the attribute list of id 2: the first record replaces the list
   * `left` from the attribute catalog, later ones are appended.
   */
  method ReadThirdAttrList(blocks: seq<RecBlock>, left: seq<AttrCacheEntry>) returns (head: seq<AttrCacheEntry>)
    requires |blocks| == DISK_BLOCKS && left == CatalogAttrList(blocks, 6, 6)
    ensures head == ThirdRelAttrList(blocks)
  {
    head := left;
    var numAttrs := ThirdRelAttrs(blocks);
    var i := 0;
    while i < numAttrs
      invariant 0 <= i && (numAttrs > 0 ==> i <= numAttrs) && (numAttrs <= 0 ==> i == 0)
      invariant i == 0 ==> head == CatalogAttrList(blocks, 6, 6)
      invariant i > 0 ==> head == CatalogAttrList(blocks, 12, i)
      decreases numAttrs - i
    {
      var attrCatRecord := RecordOf(blocks[ATTRCAT_BLOCK], 12 + i);
      var entry := AttrCacheEntry(RecordToAttrCatEntry(attrCatRecord), false, RecId(ATTRCAT_BLOCK, 12 + i), NO_INDEX);
      if i == 0 {
        head := [entry];
      } else {
        head := head + [entry];
      }
      i := i + 1;
    }
  }

  class OpenRelTable {
    const relCache: RelCacheTable
    const attrCache: AttrCacheTable

    /**
     * Empties every slot of both caches, then loads relation-catalog slots 0, 1 and 2 into
     * relation ids 0, 1 and 2 and the matching attribute-catalog slots into their lists.
     */
    constructor (store: RecordStore, rc: RelCacheTable, ac: AttrCacheTable)
      requires store.Valid() && rc.Valid() && ac.Valid()
      modifies rc.relCache, ac.attrCache
      ensures relCache == rc && attrCache == ac
      ensures forall i :: 0 <= i < 3 ==> rc.relCache[i] == Some(CatalogRelEntry(store.blocks, i))
      ensures forall i :: 3 <= i < MAX_OPEN ==> rc.relCache[i].None? && ac.attrCache[i].None?
      ensures ac.attrCache[RELCAT_RELID] == Some(CatalogAttrList(store.blocks, 0, RELCAT_NO_ATTRS))
      ensures ac.attrCache[ATTRCAT_RELID] == Some(CatalogAttrList(store.blocks, 6, ATTRCAT_NO_ATTRS))
      ensures ac.attrCache[2] == Some(ThirdRelAttrList(store.blocks))
    {
      relCache := rc;
      attrCache := ac;
      new;
      for i := 0 to MAX_OPEN
        invariant forall j :: 0 <= j < i ==> rc.relCache[j].None? && ac.attrCache[j].None?
      {
        rc.relCache[i] := None;
        ac.attrCache[i] := None;
      }
      var blocks := store.blocks;
      rc.relCache[RELCAT_RELID] := Some(CatalogRelEntry(blocks, RELCAT_SLOTNUM_FOR_RELCAT));
      rc.relCache[ATTRCAT_RELID] := Some(CatalogRelEntry(blocks, RELCAT_SLOTNUM_FOR_ATTRCAT));

      var head := ReadAttrList(blocks, 0, 6);
      ac.attrCache[RELCAT_RELID] := Some(head);
      head := ReadAttrList(blocks, 6, 6);
      ac.attrCache[ATTRCAT_RELID] := Some(head);

      rc.relCache[2] := Some(CatalogRelEntry(blocks, 2));
      head := ReadThirdAttrList(blocks, head);
      ac.attrCache[2] := Some(head);
    }

    /** Frees every cached entry: afterwards every slot of both caches is empty. */
    method Destroy()
      requires relCache.Valid() && attrCache.Valid()
      modifies relCache.relCache, attrCache.attrCache
      ensures forall i :: 0 <= i < MAX_OPEN ==> relCache.relCache[i].None? && attrCache.attrCache[i].None?
    {
      for i := 0 to MAX_OPEN
        invariant forall j :: 0 <= j < i ==> relCache.relCache[j].None? && attrCache.attrCache[j].None?
      {
        if relCache.relCache[i].Some? {
          relCache.relCache[i] := None;
        }
        if attrCache.attrCache[i].Some? {
          attrCache.attrCache[i] := None;
        }
      }
    }
  }

  /**
   * On a catalog whose first two relation-catalog records name the two catalogs, the id
   * getRelId returns for a name is the id the constructor loaded that name into.
   */
  lemma GetRelIdFindsLoadedCatalog(blocks: seq<RecBlock>, relName: string)
    requires |blocks| == DISK_BLOCKS
    requires CatalogRelEntry(blocks, RELCAT_SLOTNUM_FOR_RELCAT).relCatEntry.relName == RELCAT_RELNAME
    requires CatalogRelEntry(blocks, RELCAT_SLOTNUM_FOR_ATTRCAT).relCatEntry.relName == ATTRCAT_RELNAME
    ensures GetRelId(relName).Ok? ==>
      var id := GetRelId(relName).value;
      0 <= id < 3 && BlockBuffer.CStr(CatalogRelEntry(blocks, id).relCatEntry.relName) == BlockBuffer.CStr(relName)
  {
    CatalogNamesAreCStrings();
  }

  /**
   * The relation the constructor loads at id 2 is not reachable by name: unless it bears a
   * catalog's name, getRelId reports it as not open.
   */
  lemma ThirdRelationHasNoId(blocks: seq<RecBlock>)
    requires |blocks| == DISK_BLOCKS
    ensures var name := CatalogRelEntry(blocks, 2).relCatEntry.relName;
      BlockBuffer.CStr(name) != RELCAT_RELNAME && BlockBuffer.CStr(name) != ATTRCAT_RELNAME ==> GetRelId(name) == Err(RelNotOpen)
    ensures forall name :: GetRelId(name) != Ok(2)
  {
  }
}
