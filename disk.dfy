/** The block device: a fixed array of fixed-size blocks read and written whole. */
module Disk {
  import opened Defs

  class Disk {
    /** The content of every block on the device. */
    var image: seq<seq<byte>>

    ghost predicate Valid()
      reads this
    {
      && |image| == DISK_BLOCKS
      && forall b :: 0 <= b < |image| ==> |image[b]| == BLOCK_SIZE
    }

    constructor (init: seq<seq<byte>>)
      requires |init| == DISK_BLOCKS
      requires forall b :: 0 <= b < |init| ==> |init[b]| == BLOCK_SIZE
      ensures Valid() && image == init
    {
      image := init;
    }

    /** Copies block `blockNum` out of the device. */
    method ReadBlock(blockNum: int) returns (data: seq<byte>)
      requires Valid()
      requires 0 <= blockNum < DISK_BLOCKS
      ensures data == image[blockNum] && |data| == BLOCK_SIZE
    {
      data := image[blockNum];
    }

    /** Replaces block `blockNum` on the device by `data`. */
    method WriteBlock(data: seq<byte>, blockNum: int)
      requires Valid()
      requires 0 <= blockNum < DISK_BLOCKS && |data| == BLOCK_SIZE
      modifies this
      ensures Valid()
      ensures image == old(image)[blockNum := data]
    {
      image := image[blockNum := data];
    }
  }
}
