/** The remote JBOD device as the translation engine sees it: disk-major
    256-byte blocks, an I/O cursor set by the two seek commands, and block
    reads and writes at the cursor.  The server itself is not part of this
    model; this class stands for the effect of an operation it performs
    successfully. */
module Device {
  import opened Jbod

  /** Position of (disk, block) in the disk-major block sequence. */
  function Index(disk: int, block: int): int {
    disk * BLOCKS_PER_DISK + block
  }

  /** The byte at linear address a of the whole array of disks. */
  function ByteAt(blocks: seq<Block>, a: int): byte
    requires |blocks| == NUM_BLOCKS && 0 <= a < ADDRESS_SPACE
  {
    blocks[a / BLOCK_SIZE][a % BLOCK_SIZE]
  }

  class Disks {
    var blocks: seq<Block>
    var disk: int     // cursor: current disk
    var block: int    // cursor: current block within that disk

    ghost predicate Valid()
      reads this
    {
      |blocks| == NUM_BLOCKS && 0 <= disk < NUM_DISKS && 0 <= block < BLOCKS_PER_DISK
    }

    constructor (contents: seq<Block>)
      requires |contents| == NUM_BLOCKS
      ensures Valid() && blocks == contents
    {
      blocks := contents;
      disk, block := 0, 0;
    }

    /** One operation word, performed successfully: the seeks move the cursor
        to the disk or block field of the word, a block read copies the block
        under the cursor into buf, a block write stores buf's first 256 bytes
        there; other commands leave the contents alone. */
    method Execute(op: bv32, buf: array?<byte>)
      requires Valid()
      requires CommandField(op) == READ_BLOCK || CommandField(op) == WRITE_BLOCK ==>
        buf != null && buf.Length >= BLOCK_SIZE
      modifies this, buf
      ensures Valid()
      ensures CommandField(op) == SEEK_TO_DISK ==>
        disk == DiskField(op) as int && block == old(block) && blocks == old(blocks)
      ensures CommandField(op) == SEEK_TO_BLOCK ==>
        disk == old(disk) && block == BlockField(op) as int && blocks == old(blocks)
      ensures CommandField(op) == READ_BLOCK ==>
        && disk == old(disk) && block == old(block) && blocks == old(blocks)
        && buf[..] == blocks[Index(disk, block)] + old(buf[BLOCK_SIZE..])
      ensures CommandField(op) == WRITE_BLOCK ==>
        && disk == old(disk) && block == old(block)
        && blocks == old(blocks)[Index(disk, block) := old(buf[..BLOCK_SIZE])]
      ensures CommandField(op) != READ_BLOCK ==> buf != null ==> buf[..] == old(buf[..])
      ensures CommandField(op) !in {SEEK_TO_DISK, SEEK_TO_BLOCK, READ_BLOCK, WRITE_BLOCK} ==>
        disk == old(disk) && block == old(block) && blocks == old(blocks)
    {
      var cmd := CommandField(op);
      if cmd == SEEK_TO_DISK {
        disk := DiskField(op) as int;
      } else if cmd == SEEK_TO_BLOCK {
        block := BlockField(op) as int;
      } else if cmd == READ_BLOCK {
        Copy(buf, 0, blocks[Index(disk, block)]);
      } else if cmd == WRITE_BLOCK {
        blocks := blocks[Index(disk, block) := buf[..BLOCK_SIZE]];
      }
    }
  }
}
