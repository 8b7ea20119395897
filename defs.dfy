/** Constants, error codes and the value types shared by every layer of the storage core. */
module Defs {

  // Geometry of the disk and of a record block.
  const BLOCK_SIZE: int := 2048
  const ATTR_SIZE: int := 16
  const HEADER_SIZE: int := 32
  const DISK_BLOCKS: int := 8192
  const BUFFER_CAPACITY: int := 32
  const MAX_OPEN: int := 12

  // The blocks that hold the allocation map come first on the disk.
  const BLOCK_ALLOCATION_MAP_SIZE: int := 4

  // The self-describing catalog.
  const RELCAT_BLOCK: int := 4
  const ATTRCAT_BLOCK: int := 5
  const RELCAT_RELID: int := 0
  const ATTRCAT_RELID: int := 1
  const RELCAT_SLOTNUM_FOR_RELCAT: int := 0
  const RELCAT_SLOTNUM_FOR_ATTRCAT: int := 1
  const RELCAT_NO_ATTRS: int := 6
  const ATTRCAT_NO_ATTRS: int := 6
  const RELCAT_RELNAME: string := "RELATIONCAT"
  const ATTRCAT_RELNAME: string := "ATTRIBUTECAT"
  const RELCAT_ATTR_RELNAME: string := "RelName"

  // Field positions inside a relation-catalog record.
  const RELCAT_REL_NAME_INDEX: int := 0
  const RELCAT_NO_ATTRIBUTES_INDEX: int := 1
  const RELCAT_NO_RECORDS_INDEX: int := 2
  const RELCAT_FIRST_BLOCK_INDEX: int := 3
  const RELCAT_LAST_BLOCK_INDEX: int := 4
  const RELCAT_NO_SLOTS_PER_BLOCK_INDEX: int := 5

  // Field positions inside an attribute-catalog record.
  const ATTRCAT_REL_NAME_INDEX: int := 0
  const ATTRCAT_ATTR_NAME_INDEX: int := 1
  const ATTRCAT_ATTR_TYPE_INDEX: int := 2
  const ATTRCAT_PRIMARY_FLAG_INDEX: int := 3
  const ATTRCAT_ROOT_BLOCK_INDEX: int := 4
  const ATTRCAT_OFFSET_INDEX: int := 5

  // Block types, as stored in the allocation map and in a header.
  const REC: int := 0
  const IND_INTERNAL: int := 1
  const IND_LEAF: int := 2
  const UNUSED_BLK: int := 3
  const BMAP: int := 4

  // Attribute types.
  const NUMBER: int := 0
  const STRING: int := 1

  newtype byte = x: int | 0 <= x < 256

  /** The result codes the core returns. */
  datatype Status =
    | Success
    | OutOfBound
    | BlockNotInBuffer
    | DiskFull
    | RelNotExist
    | RelExist
    | AttrNotExist
    | AttrExist
    | RelNotOpen
    | NotPermitted
    | MaxRelations
    | NotFound

  datatype Option<T> = None | Some(value: T)

  /** A value or the code of the error that prevented it. */
  datatype Result<T> = Ok(value: T) | Err(status: Status)

  /** An attribute value: the union of a number and a bounded string. */
  datatype Attr = Num(n: int) | Str(s: string)

  /**
   * Attribute `i` of a record. A record is read from a fixed-size array, so an index outside
   * it has no defined value; the model returns Num(0) there.
   */
  function Field(rec: seq<Attr>, i: int): Attr {
    if 0 <= i < |rec| then rec[i] else Num(0)
  }

  /** The number a value holds; a string read as a number gives 0 here. */
  function AsNum(a: Attr): int {
    if a.Num? then a.n else 0
  }

  /** The string a value holds; a number read as a string gives "" here. */
  function AsStr(a: Attr): string {
    if a.Str? then a.s else ""
  }

  /** The six relational operators of a selection condition. */
  datatype Op = NE | LT | LE | EQ | GT | GE

  /** A record id: a block number and a slot in it; {-1, -1} means "none". */
  datatype RecId = RecId(block: int, slot: int)

  const NO_REC: RecId := RecId(-1, -1)

  /** The position of an index entry, an attribute's search cursor; {-1, -1} means "none". */
  datatype IndexId = IndexId(block: int, index: int)

  const NO_INDEX: IndexId := IndexId(-1, -1)

  /** The header of a block, as the decoded view keeps it. */
  datatype HeadInfo = HeadInfo(
    blockType: int,
    pblock: int,
    lblock: int,
    rblock: int,
    numEntries: int,
    numAttrs: int,
    numSlots: int)

  /** Relation-level metadata: one relation-catalog record. */
  datatype RelCatEntry = RelCatEntry(
    relName: string,
    numAttrs: int,
    numRecs: int,
    firstBlk: int,
    lastBlk: int,
    numSlotsPerBlk: int)

  /** Attribute-level metadata: one attribute-catalog record. */
  datatype AttrCatEntry = AttrCatEntry(
    relName: string,
    attrName: string,
    attrType: int,
    primaryFlag: bool,
    rootBlock: int,
    offset: int)
}
