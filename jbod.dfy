/** Constants, byte and block types, and the operation-word fields shared by
    the cache, the wire codec and the translation engine.  The headers that
    define the constants (jbod.h, net.h) are not part of this model; the
    values below are the ones the source relies on. */
module Jbod {

  type byte = bv8

  const BLOCK_SIZE: nat := 256            // JBOD_BLOCK_SIZE
  const BLOCKS_PER_DISK: nat := 256       // blocks on one disk
  const DISK_SIZE: nat := 65536           // JBOD_DISK_SIZE, bytes per disk
  const NUM_DISKS: nat := 16              // JBOD_NUM_DISKS
  const NUM_BLOCKS: nat := 4096           // NUM_DISKS * BLOCKS_PER_DISK
  const ADDRESS_SPACE: nat := 1048576     // NUM_DISKS * DISK_SIZE
  const HEADER_LEN: nat := 5              // 4-byte op word + 1 info byte
  const MAX_TRANSFER: nat := 2048         // per-call cap of mdadm_read/mdadm_write
  const NO_ERROR: int := 0                // JBOD_NO_ERROR

  /** The command enumeration (jbod_cmd_t). */
  const MOUNT: bv32 := 0
  const UNMOUNT: bv32 := 1
  const SEEK_TO_DISK: bv32 := 2
  const SEEK_TO_BLOCK: bv32 := 3
  const READ_BLOCK: bv32 := 4
  const WRITE_BLOCK: bv32 := 5
  const WRITE_PERMISSION: bv32 := 6
  const REVOKE_WRITE_PERMISSION: bv32 := 7

  /** A 256-byte block payload. */
  type Block = b: seq<byte> | |b| == BLOCK_SIZE witness seq(256, _ => 0)

  /** Field views of a 32-bit operation word: block id in bits 0-7, disk id in
      bits 8-11 and a 6-bit command in bits 12-17 (the mask the request encoder
      tests with). */
  function BlockField(op: bv32): bv32 { op & 0xff }
  function DiskField(op: bv32): bv32 { (op >> 8) & 0xf }
  function CommandField(op: bv32): bv32 { (op >> 12) & 0x3f }

  /** memcpy(dst + at, src, |src|) for non-overlapping memory. */
  method Copy(dst: array<byte>, at: nat, src: seq<byte>)
    requires at + |src| <= dst.Length
    modifies dst
    ensures dst[..] == old(dst[..at]) + src + old(dst[at + |src|..])
  {
    var k := 0;
    while k < |src|
      invariant 0 <= k <= |src|
      invariant forall j :: 0 <= j < dst.Length ==>
        dst[j] == if at <= j < at + k then src[j - at] else old(dst[j])
    {
      dst[at + k] := src[k];
      k := k + 1;
    }
  }
}
