/** The disk: an array of blocks with atomic block writes (memide.c). */
module Disks {
  import opened Blocks

  class Disk {
    var blocks: Image

    /** Every image the disk has had since this object was made, oldest first: a power loss leaves one of these. */
    ghost var trace: seq<Image>

    constructor (img: Image)
      ensures blocks == img && trace == [img]
    {
      blocks := img;
      trace := [img];
    }

    method Read(b: nat) returns (data: Block)
      requires b < |blocks|
      ensures data == blocks[b]
    {
      data := blocks[b];
    }

    method Write(b: nat, data: Block)
      requires b < |blocks|
      modifies this
      ensures blocks == old(blocks)[b := data]
      ensures trace == old(trace) + [blocks]
    {
      blocks := blocks[b := data];
      trace := trace + [blocks];
    }
  }
}
