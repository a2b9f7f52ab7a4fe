/** The translation engine (mdadm.c): the operation-word packer, the mount and
    write-permission gate, and byte-range reads and writes decomposed into
    whole-block operations through the cache and the device. */
module Mdadm {
  import opened Jbod
  import opened Cache
  import opened Device

  const INT_MAX: int := 0x7fff_ffff

  /** newop: block in bits 0-7, disk in bits 8-15, command in bits 12-19.
      The block always reads back; disk and command read back only while the
      disk id stays below 16.  Every word it packs is zero from bit 20 up. */
  function NewOp(block: bv32, disk: bv32, cmd: bv32): (r: bv32)
    ensures r >> 20 == 0
    ensures BlockField(r) == block & 0xff
    ensures disk < 16 ==> DiskField(r) == disk
    ensures disk < 16 && cmd < 64 ==> CommandField(r) == cmd
  {
    (block & 0xff) | ((disk & 0xff) << 8) | ((cmd & 0xff) << 12)
  }

  /** The uint32 value of a small non-negative int (the implicit conversion
      at the calls of newop). */
  function Word(x: int): (w: bv32)
    requires 0 <= x < 256
    ensures w as int == x
  {
    if x == 0 then 0 else Word(x - 1) + 1
  }

  /** The seek-to-disk word for a real disk decodes to that command and disk. */
  lemma SeekDiskWord(diskid: int)
    requires 0 <= diskid < NUM_DISKS
    ensures CommandField(NewOp(0, Word(diskid), SEEK_TO_DISK)) == SEEK_TO_DISK
    ensures DiskField(NewOp(0, Word(diskid), SEEK_TO_DISK)) as int == diskid
  {
    assert Word(diskid) < 16;
  }

  /** The seek-to-block word for a real block decodes to that command and block. */
  lemma SeekBlockWord(blockid: int)
    requires 0 <= blockid < BLOCKS_PER_DISK
    ensures CommandField(NewOp(Word(blockid), 0, SEEK_TO_BLOCK)) == SEEK_TO_BLOCK
    ensures BlockField(NewOp(Word(blockid), 0, SEEK_TO_BLOCK)) as int == blockid
  {
  }

  /** The disk field overlaps the command field: the high nibble of the disk
      id is or-ed into the command. */
  lemma DiskHighNibbleInCommand(block: bv32, disk: bv32, cmd: bv32)
    requires disk < 256 && cmd < 64
    ensures CommandField(NewOp(block, disk, cmd)) == (cmd | (disk >> 4)) & 0x3f
    ensures NewOp(block, disk, cmd) == NewOp(block, disk & 0xf, cmd | (disk >> 4))
  {
  }

  /** Disk 16 with the mount command packs to the same word as disk 0 with the
      unmount command. */
  lemma DiskSixteenCollides()
    ensures NewOp(0, 16, MOUNT) == NewOp(0, 0, UNMOUNT)
  {
  }

  /** Disk and block of a linear address. */
  function DiskOf(a: int): (d: int)
    ensures 0 <= a ==> 0 <= d && d * DISK_SIZE <= a < (d + 1) * DISK_SIZE
    ensures 0 <= a < ADDRESS_SPACE ==> d < NUM_DISKS
  {
    a / DISK_SIZE
  }

  function BlockOf(a: int): (b: int)
    ensures 0 <= b < BLOCKS_PER_DISK
    ensures b * BLOCK_SIZE <= a % DISK_SIZE < (b + 1) * BLOCK_SIZE
  {
    (a % DISK_SIZE) / BLOCK_SIZE
  }

  /** Every address of the space lies on a real disk and block, and that
      (disk, block) pair is the address's block index. */
  lemma {:induction false} AddressSplit(a: int)
    requires 0 <= a < ADDRESS_SPACE
    ensures 0 <= DiskOf(a) < NUM_DISKS && 0 <= BlockOf(a) < BLOCKS_PER_DISK
    ensures Index(DiskOf(a), BlockOf(a)) == a / BLOCK_SIZE
  {
    var q, r := a / DISK_SIZE, a % DISK_SIZE;
    assert a == q * 65536 + r;
    var s, t := r / BLOCK_SIZE, r % BLOCK_SIZE;
    assert r == s * 256 + t;
    assert a == (q * 256 + s) * 256 + t;
  }

  /** The n device bytes starting at address a. */
  ghost function Bytes(blocks: seq<Block>, a: int, n: nat): (r: seq<byte>)
    requires |blocks| == NUM_BLOCKS && 0 <= a && a + n <= ADDRESS_SPACE
    ensures |r| == n
    ensures forall k :: 0 <= k < n ==> r[k] == ByteAt(blocks, a + k)
  {
    seq(n, k requires 0 <= k < n => ByteAt(blocks, a + k))
  }

  /** Bytes of consecutive ranges concatenate. */
  lemma {:induction false} BytesSplit(blocks: seq<Block>, a: int, m: nat, n: nat)
    requires |blocks| == NUM_BLOCKS && 0 <= a && a + m + n <= ADDRESS_SPACE
    ensures Bytes(blocks, a, m + n) == Bytes(blocks, a, m) + Bytes(blocks, a + m, n)
  {
    var l, r := Bytes(blocks, a, m), Bytes(blocks, a + m, n);
    forall k | 0 <= k < m + n
      ensures Bytes(blocks, a, m + n)[k] == (l + r)[k]
    {
      if k >= m {
        assert (l + r)[k] == r[k - m] == ByteAt(blocks, a + m + (k - m));
      }
    }
  }

  /** A range that stays inside one block is a slice of that block. */
  lemma {:induction false} ReadStep(blocks: seq<Block>, c: int, n: nat)
    requires |blocks| == NUM_BLOCKS && 0 <= c < ADDRESS_SPACE && c + n <= ADDRESS_SPACE
    requires c % BLOCK_SIZE + n <= BLOCK_SIZE
    ensures blocks[c / BLOCK_SIZE][c % BLOCK_SIZE..c % BLOCK_SIZE + n] == Bytes(blocks, c, n)
  {
    var b := blocks[c / BLOCK_SIZE];
    forall k | 0 <= k < n
      ensures b[c % BLOCK_SIZE..c % BLOCK_SIZE + n][k] == Bytes(blocks, c, n)[k]
    {
      assert (c + k) / 256 == c / 256 && (c + k) % 256 == c % 256 + k;
    }
  }

  /** Appending the in-block piece at address addr+i to the first i bytes
      from addr gives the first i+n bytes. */
  lemma {:induction false} ReadAppend(blocks: seq<Block>, addr: int, i: nat, n: nat, prefix: seq<byte>, piece: seq<byte>)
    requires |blocks| == NUM_BLOCKS && 0 <= addr && addr + i < ADDRESS_SPACE && addr + i + n <= ADDRESS_SPACE
    requires (addr + i) % BLOCK_SIZE + n <= BLOCK_SIZE
    requires prefix == Bytes(blocks, addr, i)
    requires piece == blocks[(addr + i) / BLOCK_SIZE][(addr + i) % BLOCK_SIZE..(addr + i) % BLOCK_SIZE + n]
    ensures prefix + piece == Bytes(blocks, addr, i + n)
  {
    ReadStep(blocks, addr + i, n);
    BytesSplit(blocks, addr, i, n);
  }

  /** A slice of a prefix is the same slice of the whole. */
  lemma PrefixSlice(b: seq<byte>, len: int, i: int, j: int)
    requires 0 <= i <= j <= len <= |b|
    ensures b[..len][i..j] == b[i..j]
  {
  }

  /** The device holds data[0..i) at addresses addr .. addr+i and the
      original contents everywhere else. */
  ghost predicate WrittenUpTo(orig: seq<Block>, cur: seq<Block>, data: seq<byte>, addr: int, i: int)
    requires |orig| == NUM_BLOCKS && |cur| == NUM_BLOCKS
    requires 0 <= addr && 0 <= i <= |data|
  {
    forall a :: 0 <= a < ADDRESS_SPACE ==>
      ByteAt(cur, a) == if addr <= a < addr + i then data[a - addr] else ByteAt(orig, a)
  }

  /** One write iteration: merging data[i..i+n) into the block of address
      addr+i at its in-block offset and storing the whole block extends the
      written prefix by n bytes and changes no other byte. */
  lemma {:induction false} WriteStep(orig: seq<Block>, cur: seq<Block>, data: seq<byte>, addr: int, i: int, n: int, merged: seq<byte>)
    requires |orig| == NUM_BLOCKS && |cur| == NUM_BLOCKS
    requires 0 <= addr && 0 <= i && 0 < n && i + n <= |data| && addr + i + n <= ADDRESS_SPACE
    requires (addr + i) % BLOCK_SIZE + n <= BLOCK_SIZE
    requires i > 0 ==> (addr + i) % BLOCK_SIZE == 0
    requires WrittenUpTo(orig, cur, data, addr, i)
    requires merged == cur[(addr + i) / BLOCK_SIZE][..(addr + i) % BLOCK_SIZE] + data[i..i + n]
                       + cur[(addr + i) / BLOCK_SIZE][(addr + i) % BLOCK_SIZE + n..]
    ensures |merged| == BLOCK_SIZE
    ensures WrittenUpTo(orig, cur[(addr + i) / BLOCK_SIZE := merged], data, addr, i + n)
  {
    var c := addr + i;
    var off := c % BLOCK_SIZE;
    var idx := c / BLOCK_SIZE;
    var next := cur[idx := merged];
    forall a | 0 <= a < ADDRESS_SPACE
      ensures ByteAt(next, a) == if addr <= a < addr + i + n then data[a - addr] else ByteAt(orig, a)
    {
      var k := a % 256;
      if a / 256 == idx {
        assert a == idx * 256 + k && c == idx * 256 + off;
        if k < off {
          assert ByteAt(next, a) == cur[idx][k] == ByteAt(cur, a);
        } else if k < off + n {
          assert ByteAt(next, a) == data[i + k - off];
        } else {
          assert ByteAt(next, a) == cur[idx][k] == ByteAt(cur, a);
        }
      } else {
        assert ByteAt(next, a) == ByteAt(cur, a);
        assert a < idx * 256 || idx * 256 + 256 <= a;
      }
    }
  }

  /** Bytes one loop iteration of mdadm_read/mdadm_write moves: to the end
      of the current block or to the end of the request, whichever is first. */
  function PieceLen(offset: int, i: int, len: int): (n: int)
    ensures n <= BLOCK_SIZE - offset && n <= len - i
    ensures n == BLOCK_SIZE - offset || n == len - i
    ensures offset < BLOCK_SIZE && i < len ==> n > 0
  {
    if BLOCK_SIZE - offset < len - i then BLOCK_SIZE - offset else len - i
  }

  /** The iteration state both loops keep: the first piece starts at the
      request's own offset, every later one on a block boundary, and
      blockvalue counts the blocks passed so far. */
  predicate PieceState(i: int, len: int, offset: int, original_off: int, blockvalue: int) {
    && 0 <= i < len && 0 <= offset < BLOCK_SIZE && 0 <= original_off < BLOCK_SIZE
    && (i == 0 ==> blockvalue == 0 && offset == original_off)
    && (i > 0 ==> offset == 0 && blockvalue * BLOCK_SIZE == i + original_off)
  }

  /** After a piece of n bytes at address c, the next piece (if any) starts on
      a block boundary with the block count advanced. */
  lemma {:induction false} NextPiece(c: int, i: int, len: int, offset: int, original_off: int,
                                     blocks_passed: int, n: int)
    requires 0 <= c && c % BLOCK_SIZE == offset && 0 <= i && 0 <= original_off < BLOCK_SIZE
    requires i + n < len ==>
      offset + n == BLOCK_SIZE && blocks_passed * BLOCK_SIZE == i + n + original_off
    ensures i + n < len ==> PieceState(i + n, len, (c + n) % BLOCK_SIZE, original_off, blocks_passed)
  {
    if i + n < len {
      assert c + n == (c / BLOCK_SIZE + 1) * BLOCK_SIZE;
    }
  }

  /** The copy-out cascade of mdadm_read: the piece of tempbuf from offset
      lands at buf[i..] and is exactly PieceLen bytes long; when the request
      goes on, the piece ended on a block boundary. */
  method CopyPieceOut(buf: array<byte>, tempbuf: array<byte>, i: int, len: int,
                      offset: int, original_off: int, blockvalue: int)
    returns (read_bytes: int, blocks_passed: int)
    requires PieceState(i, len, offset, original_off, blockvalue)
    requires tempbuf.Length == BLOCK_SIZE && len <= buf.Length && buf != tempbuf
    modifies buf
    ensures read_bytes == PieceLen(offset, i, len) && blocks_passed == blockvalue + 1
    ensures buf[..] == old(buf[..i]) + tempbuf[offset..offset + read_bytes] + old(buf[i + read_bytes..])
    ensures i + read_bytes < len ==>
      offset + read_bytes == BLOCK_SIZE && blocks_passed * BLOCK_SIZE == i + read_bytes + original_off
  {
    var blank := 0;
    blocks_passed := blockvalue;
    if offset != 0 {
      blocks_passed := blocks_passed + 1;
      if blocks_passed * BLOCK_SIZE - offset > len {
        blank := blocks_passed * BLOCK_SIZE - original_off - len;
        Copy(buf, i, tempbuf[offset..BLOCK_SIZE - blank]);
        read_bytes := BLOCK_SIZE - offset - blank;
        assert offset + read_bytes == BLOCK_SIZE - blank;
      } else {
        Copy(buf, i, tempbuf[offset..]);
        read_bytes := BLOCK_SIZE - offset;
        assert tempbuf[offset..] == tempbuf[offset..offset + read_bytes];
      }
    } else {
      blocks_passed := blocks_passed + 1;
      if blocks_passed * BLOCK_SIZE - original_off <= len {
        Copy(buf, i, tempbuf[..]);
        read_bytes := BLOCK_SIZE;
        assert tempbuf[..] == tempbuf[offset..offset + read_bytes];
      } else {
        blank := blocks_passed * BLOCK_SIZE - original_off - len;
        Copy(buf, i, tempbuf[..BLOCK_SIZE - blank]);
        read_bytes := BLOCK_SIZE - blank;
        assert tempbuf[..BLOCK_SIZE - blank] == tempbuf[offset..offset + read_bytes];
      }
    }
  }

  /** The merge cascade of mdadm_write: PieceLen bytes of the caller's buffer
      overwrite tempbuf from offset on.  The first piece is taken from the
      start of buf, later ones from buf[i..]; both are buf[i..] because only
      the first piece can start inside a block. */
  method MergePieceIn(tempbuf: array<byte>, buf: array<byte>, i: int, len: int,
                      offset: int, original_off: int, blockvalue: int)
    returns (read_bytes: int, blocks_passed: int)
    requires PieceState(i, len, offset, original_off, blockvalue)
    requires tempbuf.Length == BLOCK_SIZE && len <= buf.Length && buf != tempbuf
    modifies tempbuf
    ensures read_bytes == PieceLen(offset, i, len) && blocks_passed == blockvalue + 1
    ensures tempbuf[..] == old(tempbuf[..offset]) + buf[i..i + read_bytes] + old(tempbuf[offset + read_bytes..])
    ensures i + read_bytes < len ==>
      offset + read_bytes == BLOCK_SIZE && blocks_passed * BLOCK_SIZE == i + read_bytes + original_off
  {
    var blank := 0;
    blocks_passed := blockvalue;
    if offset != 0 {
      blocks_passed := blocks_passed + 1;
      if blocks_passed * BLOCK_SIZE - offset > len {
        blank := blocks_passed * BLOCK_SIZE - original_off - len;
        Copy(tempbuf, offset, buf[..BLOCK_SIZE - offset - blank]);
        read_bytes := BLOCK_SIZE - offset - blank;
        assert buf[..BLOCK_SIZE - offset - blank] == buf[i..i + read_bytes];
      } else {
        Copy(tempbuf, offset, buf[..BLOCK_SIZE - offset]);
        read_bytes := BLOCK_SIZE - offset;
        assert buf[..BLOCK_SIZE - offset] == buf[i..i + read_bytes];
      }
    } else {
      blocks_passed := blocks_passed + 1;
      if blocks_passed * BLOCK_SIZE - original_off <= len {
        Copy(tempbuf, 0, buf[i..i + BLOCK_SIZE]);
        read_bytes := BLOCK_SIZE;
      } else {
        blank := blocks_passed * BLOCK_SIZE - original_off - len;
        Copy(tempbuf, 0, buf[i..i + BLOCK_SIZE - blank]);
        read_bytes := BLOCK_SIZE - blank;
        assert i + BLOCK_SIZE - blank == i + read_bytes;
      }
    }
  }

  /** The key of a slot names a real device block. */
  predicate OnDevice(e: Entry) {
    0 <= e.disk < NUM_DISKS && 0 <= e.block < BLOCKS_PER_DISK
  }

  /** Every slot whose key names a real device block holds that block's
      current contents. */
  ghost predicate SlotsCoherent(s: seq<Entry>, blocks: seq<Block>)
    requires |blocks| == NUM_BLOCKS
  {
    forall i :: 0 <= i < |s| && OnDevice(s[i]) ==> s[i].data == blocks[Index(s[i].disk, s[i].block)]
  }

  /** The cache agrees with the device (a disabled cache trivially does). */
  ghost predicate Coherent(c: BlockCache, blocks: seq<Block>)
    reads c, c.slots
    requires |blocks| == NUM_BLOCKS
  {
    c.slots != null ==> SlotsCoherent(c.slots[..], blocks)
  }

  /** A lookup hit on a coherent cache returns the device block. */
  lemma {:induction false} CoherentHit(s: seq<Entry>, blocks: seq<Block>, disk: int, block: int)
    requires |blocks| == NUM_BLOCKS && SlotsCoherent(s, blocks)
    requires 0 <= disk < NUM_DISKS && 0 <= block < BLOCKS_PER_DISK
    requires FirstMatch(s, disk, block) < |s|
    ensures s[FirstMatch(s, disk, block)].data == blocks[Index(disk, block)]
  {
    var i := FirstMatch(s, disk, block);
    assert OnDevice(s[i]);
  }

  /** Counting an access keeps a coherent cache coherent. */
  lemma {:induction false} CoherentAccess(s: seq<Entry>, blocks: seq<Block>, i: nat, n: int)
    requires |blocks| == NUM_BLOCKS && SlotsCoherent(s, blocks) && i < |s|
    ensures SlotsCoherent(s[i := s[i].(accesses := n)], blocks)
  {
    var t := s[i := s[i].(accesses := n)];
    forall j | 0 <= j < |t| && OnDevice(t[j])
      ensures t[j].data == blocks[Index(t[j].disk, t[j].block)]
    {
      assert OnDevice(s[j]);
    }
  }

  /** Inserting the device's own block keeps a coherent cache coherent. */
  lemma {:induction false} CoherentInsert(s: seq<Entry>, blocks: seq<Block>, p: nat, disk: int, block: int)
    requires |blocks| == NUM_BLOCKS && SlotsCoherent(s, blocks) && p < |s|
    requires 0 <= disk < NUM_DISKS && 0 <= block < BLOCKS_PER_DISK
    ensures SlotsCoherent(s[p := Entry(true, disk, block, 1, blocks[Index(disk, block)])], blocks)
  {
    var t := s[p := Entry(true, disk, block, 1, blocks[Index(disk, block)])];
    forall j | 0 <= j < |t| && OnDevice(t[j])
      ensures t[j].data == blocks[Index(t[j].disk, t[j].block)]
    {
      if j != p {
        assert OnDevice(s[j]);
      }
    }
  }

  // ---------------------------------------------------------------------
  // What a write does to the cache

  /** The part of the cache reads and writes change: the slots and the
      occupancy, hit and query counters.  A cache that was never created
      (or was destroyed) has no slots. */
  datatype CacheState = CacheState(slots: seq<Entry>, amount: int, hits: int, queries: int)

  ghost function StateOf(c: BlockCache): CacheState
    reads c, c.slots
  {
    CacheState(if c.slots == null then [] else c.slots[..], c.amount, c.hits, c.queries)
  }

  /** cache_update on the slot contents: every slot matching the key takes
      data and one more access. */
  function UpdateMatching(s: seq<Entry>, disk: int, block: int, data: Block): (r: seq<Entry>)
    ensures |r| == |s| && ValidCount(r) == ValidCount(s)
    ensures forall j :: 0 <= j < |s| && !Matches(s[j], disk, block) ==> r[j] == s[j]
    ensures forall j :: 0 <= j < |s| && Matches(s[j], disk, block) ==>
      && r[j].valid == s[j].valid && Matches(r[j], disk, block)
      && r[j].data == data && r[j].accesses == s[j].accesses + 1
  {
    var r := seq(|s|, j requires 0 <= j < |s| =>
      if Matches(s[j], disk, block) then s[j].(data := data, accesses := s[j].accesses + 1) else s[j]);
    SameFlagsSameCount(r, s);
    r
  }

  /** The cache effect of one iteration of mdadm_write on block (disk, block)
      of an active cache: cache_lookup, then cache_update with the caller's
      first 256 bytes on a hit, or cache_insert of them on a miss.  A lookup
      in an empty cache fails before counting a query; an out-of-range key
      is refused by both lookup and insert and changes nothing. */
  ghost function CacheWrite(c: CacheState, disk: int, block: int, data: Block): (r: CacheState)
    requires |c.slots| > 0 && c.amount == ValidCount(c.slots)
    ensures |r.slots| == |c.slots| && r.amount == ValidCount(r.slots)
    ensures !InRange(disk, block) ==> r == c
  {
    var s := c.slots;
    var i := FirstMatch(s, disk, block);
    if !InRange(disk, block) then c
    else if c.amount != 0 && i < |s| then
      var looked := s[i := s[i].(accesses := s[i].accesses + 1)];
      var t := UpdateMatching(looked, disk, block, data);
      SameFlagsSameCount(looked, s);
      SameFlagsSameCount(t, looked);
      CacheState(t, c.amount, c.hits + 1, c.queries + 1)
    else CacheMiss(c, disk, block, data)
  }

  /** A failed cache_lookup followed by cache_insert of data under (disk,
      block): the entry goes to the first free slot, or over the victim when
      every slot is valid.  The lookup counts a query unless the cache was
      empty. */
  ghost function CacheMiss(c: CacheState, disk: int, block: int, data: Block): (r: CacheState)
    requires |c.slots| > 0 && c.amount == ValidCount(c.slots)
    ensures |r.slots| == |c.slots| && r.amount == ValidCount(r.slots)
    ensures r.hits == c.hits
  {
    var s := c.slots;
    var full := c.amount == |s|;
    FullIffAllValid(s);
    var p := BlockCache.InsertSlot(s, full);
    ValidCountUpdate(s, p, Entry(true, disk, block, 1, data));
    CacheState(s[p := Entry(true, disk, block, 1, data)],
               if full then c.amount else c.amount + 1,
               c.hits,
               if c.amount != 0 then c.queries + 1 else c.queries)
  }

  /** The (disk, block) keys of the n consecutive blocks from block index
      first, in order. */
  function BlockKeys(first: int, n: nat): (r: seq<(int, int)>)
    ensures |r| == n
  {
    if n == 0 then []
    else BlockKeys(first, n - 1) + [KeyOf(first + n - 1)]
  }

  /** Each key of a range of real blocks names a real disk and block, and
      indexes the block at its position in the range. */
  lemma BlockKeysIndex(first: int, n: nat, j: int)
    requires 0 <= first && first + n <= NUM_BLOCKS && 0 <= j < n
    ensures 0 <= BlockKeys(first, n)[j].0 < NUM_DISKS && 0 <= BlockKeys(first, n)[j].1 < BLOCKS_PER_DISK
    ensures Index(BlockKeys(first, n)[j].0, BlockKeys(first, n)[j].1) == first + j
  {
  }

  /** The cache effect of a whole mdadm_write: CacheWrite for each key in
      turn, every time with the same first 256 bytes of the caller's buffer. */
  ghost function CacheWrites(c: CacheState, keys: seq<(int, int)>, data: Block): (r: CacheState)
    requires |c.slots| > 0 && c.amount == ValidCount(c.slots)
    ensures |r.slots| == |c.slots| && r.amount == ValidCount(r.slots)
    decreases |keys|
  {
    if keys == [] then c
    else
      var k := keys[|keys| - 1];
      CacheWrite(CacheWrites(c, keys[..|keys| - 1], data), k.0, k.1, data)
  }

  /** One more block of a write: the fold over the keys with one more key
      appended is CacheWrite of that key after the fold. */
  lemma CacheWritesStep(c: CacheState, keys: seq<(int, int)>, data: Block, disk: int, block: int)
    requires |c.slots| > 0 && c.amount == ValidCount(c.slots)
    ensures CacheWrites(c, keys + [(disk, block)], data) == CacheWrite(CacheWrites(c, keys, data), disk, block, data)
  {
    assert (keys + [(disk, block)])[..|keys|] == keys;
  }

  /** After a write to (disk, block) the cache is non-empty and a lookup of
      that key finds the caller's first 256 bytes. */
  lemma {:induction false} CacheWriteCaches(c: CacheState, disk: int, block: int, data: Block)
    requires |c.slots| > 0 && c.amount == ValidCount(c.slots) && InRange(disk, block)
    ensures var r := CacheWrite(c, disk, block, data);
      && r.amount > 0
      && FirstMatch(r.slots, disk, block) < |r.slots|
      && r.slots[FirstMatch(r.slots, disk, block)].data == data
  {
    var s := c.slots;
    var i := FirstMatch(s, disk, block);
    var r := CacheWrite(c, disk, block, data);
    if c.amount != 0 && i < |s| {
      forall j | 0 <= j < i ensures !Matches(r.slots[j], disk, block) {
        assert !Matches(s[j], disk, block);
      }
      assert Matches(r.slots[i], disk, block);
    } else {
      var full := c.amount == |s|;
      FullIffAllValid(s);
      var p := BlockCache.InsertSlot(s, full);
      if c.amount == 0 {
        NoneValidCount(s);
        assert !s[0].valid;
        assert p == 0;
      } else {
        forall j | 0 <= j < |s| ensures !Matches(s[j], disk, block) {
        }
      }
      forall j | 0 <= j < p ensures !Matches(r.slots[j], disk, block) {
        assert r.slots[j] == s[j];
      }
      assert Matches(r.slots[p], disk, block);
    }
  }

  /** The staleness the write path leaves: when the device block after the
      write differs from the caller's first 256 bytes (a partial or unaligned
      write merged into different contents), the cache no longer agrees with
      the device, so a later read can return bytes never written there. */
  lemma {:induction false} WriteLeavesStaleEntry(c: CacheState, disk: int, block: int, data: Block, blocks: seq<Block>)
    requires |c.slots| > 0 && c.amount == ValidCount(c.slots)
    requires 0 <= disk < NUM_DISKS && 0 <= block < BLOCKS_PER_DISK
    requires |blocks| == NUM_BLOCKS && blocks[Index(disk, block)] != data
    ensures !SlotsCoherent(CacheWrite(c, disk, block, data).slots, blocks)
  {
    var r := CacheWrite(c, disk, block, data);
    CacheWriteCaches(c, disk, block, data);
    var k := FirstMatch(r.slots, disk, block);
    assert OnDevice(r.slots[k]);
  }

  /** Blocks a request of len bytes at addr touches. */
  function BlocksTouched(addr: int, len: int): (r: int)
    ensures 0 <= addr && 0 <= len && addr + len <= ADDRESS_SPACE ==>
      && 0 <= r && addr / BLOCK_SIZE + r <= NUM_BLOCKS
      && (len > 0 ==> addr % BLOCK_SIZE + len <= BLOCK_SIZE * r < addr % BLOCK_SIZE + len + BLOCK_SIZE)
  {
    if len <= 0 then 0 else (addr + len - 1) / BLOCK_SIZE - addr / BLOCK_SIZE + 1
  }

  /** The piece of the loop at byte i lies in block index addr/256 plus the
      blocks passed so far, and its (disk, block) is that index split. */
  lemma {:induction false} PieceKey(addr: int, i: int, len: int, original_off: int, blockvalue: int)
    requires 0 <= addr && original_off == addr % BLOCK_SIZE
    requires PieceState(i, len, (addr + i) % BLOCK_SIZE, original_off, blockvalue)
    ensures (addr + i) / BLOCK_SIZE == addr / BLOCK_SIZE + blockvalue
    ensures DiskOf(addr + i) == (addr / BLOCK_SIZE + blockvalue) / BLOCKS_PER_DISK
    ensures BlockOf(addr + i) == (addr / BLOCK_SIZE + blockvalue) % BLOCKS_PER_DISK
  {
    var q := addr / BLOCK_SIZE + blockvalue;
    assert addr + i == q * BLOCK_SIZE + (addr + i) % BLOCK_SIZE;
    var a := addr + i;
    assert a == (q / BLOCKS_PER_DISK) * DISK_SIZE + (q % BLOCKS_PER_DISK) * BLOCK_SIZE + a % BLOCK_SIZE;
  }

  /** When the piece at byte i ends the request, the blocks passed after it
      are all the blocks the request touches. */
  lemma {:induction false} LastPiece(addr: int, i: int, len: int, original_off: int, blockvalue: int)
    requires 0 <= addr && original_off == addr % BLOCK_SIZE
    requires PieceState(i, len, (addr + i) % BLOCK_SIZE, original_off, blockvalue)
    requires i + PieceLen((addr + i) % BLOCK_SIZE, i, len) == len
    ensures blockvalue + 1 == BlocksTouched(addr, len)
  {
    PieceKey(addr, i, len, original_off, blockvalue);
    assert (addr + len - 1) / BLOCK_SIZE == (addr + i) / BLOCK_SIZE;
  }

  /** The block count after one write iteration: the piece's key is the
      next of the request's block keys, and the last piece completes them. */
  lemma {:induction false} PieceCount(addr: int, i: int, len: int, original_off: int, blockvalue: int,
                                      first: int, disk: int, block: int, read_bytes: int)
    requires 0 <= addr && addr + len <= ADDRESS_SPACE && original_off == addr % BLOCK_SIZE
    requires PieceState(i, len, (addr + i) % BLOCK_SIZE, original_off, blockvalue)
    requires first == addr / BLOCK_SIZE && first + blockvalue <= NUM_BLOCKS
    requires disk == DiskOf(addr + i) && block == BlockOf(addr + i)
    requires read_bytes == PieceLen((addr + i) % BLOCK_SIZE, i, len)
    ensures first + blockvalue + 1 <= NUM_BLOCKS
    ensures BlockKeys(first, blockvalue) + [(disk, block)] == BlockKeys(first, blockvalue + 1)
    ensures i + read_bytes == len ==> blockvalue + 1 == BlocksTouched(addr, len)
  {
    PieceKey(addr, i, len, original_off, blockvalue);
    if i + read_bytes == len {
      LastPiece(addr, i, len, original_off, blockvalue);
    }
  }

  /** The piece of the loop at byte i: its disk and block are the key of
      block index addr/256 plus the blocks passed, a real block, and when the
      piece ends the request the blocks passed after it are all the request
      touches. */
  lemma {:induction false} NextKey(addr: int, i: int, len: int, original_off: int, blockvalue: int)
    requires 0 <= addr && addr + len <= ADDRESS_SPACE && original_off == addr % BLOCK_SIZE
    requires PieceState(i, len, (addr + i) % BLOCK_SIZE, original_off, blockvalue)
    ensures var q := addr / BLOCK_SIZE + blockvalue;
      && 0 <= q < NUM_BLOCKS
      && (DiskOf(addr + i), BlockOf(addr + i)) == KeyOf(q) && Index(DiskOf(addr + i), BlockOf(addr + i)) == q
    ensures i + PieceLen((addr + i) % BLOCK_SIZE, i, len) == len ==> blockvalue + 1 == BlocksTouched(addr, len)
  {
    AddressSplit(addr + i);
    PieceKey(addr, i, len, original_off, blockvalue);
    if i + PieceLen((addr + i) % BLOCK_SIZE, i, len) == len {
      LastPiece(addr, i, len, original_off, blockvalue);
    }
  }

  // ---------------------------------------------------------------------
  // What a read does to the cache, and what it returns

  /** The cache effect of fetching block (disk, block) for mdadm_read from an
      active cache, where dev is the device's copy of the block: cache_lookup,
      which on a hit counts the hit and one more access to the first
      matching slot; on a miss the block is read from the device and
      cache_insert puts it in.  Without a cache nothing changes. */
  ghost function CacheRead(c: CacheState, disk: int, block: int, dev: Block): (r: CacheState)
    requires c.amount == ValidCount(c.slots)
    ensures |r.slots| == |c.slots| && r.amount == ValidCount(r.slots)
    ensures |c.slots| == 0 || !InRange(disk, block) ==> r == c
  {
    var s := c.slots;
    var i := FirstMatch(s, disk, block);
    if |s| == 0 || !InRange(disk, block) then c
    else if c.amount != 0 && i < |s| then
      var looked := s[i := s[i].(accesses := s[i].accesses + 1)];
      SameFlagsSameCount(looked, s);
      CacheState(looked, c.amount, c.hits + 1, c.queries + 1)
    else CacheMiss(c, disk, block, dev)
  }

  /** The block mdadm_read obtains for (disk, block): the data of the first
      matching slot on a lookup hit, otherwise the device's copy dev. */
  ghost function Fetched(c: CacheState, disk: int, block: int, dev: Block): Block {
    var i := FirstMatch(c.slots, disk, block);
    if InRange(disk, block) && c.amount != 0 && i < |c.slots| then c.slots[i].data else dev
  }

  /** Where a whole mdadm_read has got to after some of its blocks: the
      cache it left, and the blocks it obtained, one per block read. */
  datatype ReadProgress = ReadProgress(cache: CacheState, seen: seq<Block>)

  /** The disk and block of block index q. */
  function KeyOf(q: int): (r: (int, int))
    ensures 0 <= q < NUM_BLOCKS ==> 0 <= r.0 < NUM_DISKS && 0 <= r.1 < BLOCKS_PER_DISK && Index(r.0, r.1) == q
  {
    (q / BLOCKS_PER_DISK, q % BLOCKS_PER_DISK)
  }

  /** A whole mdadm_read of the n consecutive blocks from block index first,
      blocks being the device's contents, from cache state c: each block is
      Fetched from the cache as the reads before it left it, and CacheRead
      moves the cache on. */
  ghost function ReadRange(c: CacheState, blocks: seq<Block>, first: int, n: nat): (r: ReadProgress)
    requires c.amount == ValidCount(c.slots) && 0 <= first && first + n <= |blocks|
    ensures |r.cache.slots| == |c.slots| && r.cache.amount == ValidCount(r.cache.slots)
    ensures |r.seen| == n
    ensures |c.slots| == 0 ==> r.cache == c
    decreases n
  {
    if n == 0 then ReadProgress(c, [])
    else
      var p := ReadRange(c, blocks, first, n - 1);
      var key := KeyOf(first + n - 1);
      ReadProgress(CacheRead(p.cache, key.0, key.1, blocks[first + n - 1]),
                   p.seen + [Fetched(p.cache, key.0, key.1, blocks[first + n - 1])])
  }

  /** A fetch from a cache that agrees with the device returns the device's
      block and leaves the cache agreeing with the device. */
  lemma {:induction false} CoherentRead(c: CacheState, blocks: seq<Block>, disk: int, block: int)
    requires c.amount == ValidCount(c.slots)
    requires |blocks| == NUM_BLOCKS && SlotsCoherent(c.slots, blocks)
    requires 0 <= disk < NUM_DISKS && 0 <= block < BLOCKS_PER_DISK
    ensures Fetched(c, disk, block, blocks[Index(disk, block)]) == blocks[Index(disk, block)]
    ensures SlotsCoherent(CacheRead(c, disk, block, blocks[Index(disk, block)]).slots, blocks)
  {
    var s := c.slots;
    var i := FirstMatch(s, disk, block);
    if |s| == 0 {
    } else if c.amount != 0 && i < |s| {
      CoherentHit(s, blocks, disk, block);
      CoherentAccess(s, blocks, i, s[i].accesses + 1);
    } else {
      FullIffAllValid(s);
      CoherentInsert(s, blocks, BlockCache.InsertSlot(s, c.amount == |s|), disk, block);
    }
  }

  /** A slice of blocks extended by the next block. */
  lemma SliceAppend(blocks: seq<Block>, first: int, n: int)
    requires 0 <= first && 0 <= n && first + n < |blocks|
    ensures blocks[first..first + n] + [blocks[first + n]] == blocks[first..first + n + 1]
  {
  }

  /** A read of a range of blocks from a cache that agrees with the device
      obtains exactly the device's blocks of the range and leaves the cache
      agreeing with the device. */
  lemma {:induction false} CoherentRange(c: CacheState, blocks: seq<Block>, first: int, n: nat)
    requires c.amount == ValidCount(c.slots)
    requires |blocks| == NUM_BLOCKS && SlotsCoherent(c.slots, blocks)
    requires 0 <= first && first + n <= NUM_BLOCKS
    ensures ReadRange(c, blocks, first, n).seen == blocks[first..first + n]
    ensures SlotsCoherent(ReadRange(c, blocks, first, n).cache.slots, blocks)
    decreases n
  {
    if n > 0 {
      var p := ReadRange(c, blocks, first, n - 1);
      var key := KeyOf(first + n - 1);
      CoherentRange(c, blocks, first, n - 1);
      CoherentRead(p.cache, blocks, key.0, key.1);
      SliceAppend(blocks, first, n - 1);
    }
  }

  /** The state of mdadm_read's block loop after n blocks of the request
      (the blocks from index first): the cache c is where ReadRange has
      brought it from start, and the bytes copied out so far, got, are the
      request's bytes of the blocks obtained, from offset off in the first. */
  ghost predicate ReadState(start: CacheState, blocks: seq<Block>, first: int, n: nat, off: int,
                            c: CacheState, got: seq<byte>) {
    && start.amount == ValidCount(start.slots) && 0 <= first && first + n <= |blocks| && 0 <= off
    && (|got| > 0 ==> off + |got| <= BLOCK_SIZE * n)
    && c == ReadRange(start, blocks, first, n).cache
    && got == Window(ReadRange(start, blocks, first, n).seen, off, |got|)
  }

  /** One more block of the loop: fetching the next block of the range and
      copying out k bytes of it from offset o, where the copy left off,
      extends the loop state by that block. */
  lemma {:induction false} ReadStateStep(start: CacheState, blocks: seq<Block>, first: int, n: nat, off: int,
                                         c: CacheState, got: seq<byte>, disk: int, block: int, o: int, k: nat)
    requires ReadState(start, blocks, first, n, off, c, got) && first + n < |blocks|
    requires (disk, block) == KeyOf(first + n)
    requires 0 <= o && o + k <= BLOCK_SIZE && off + |got| == BLOCK_SIZE * n + o
    ensures ReadState(start, blocks, first, n + 1, off, CacheRead(c, disk, block, blocks[first + n]),
                      got + Fetched(c, disk, block, blocks[first + n])[o..o + k])
  {
    WindowAppend(ReadRange(start, blocks, first, n).seen, Fetched(c, disk, block, blocks[first + n]), off, |got|, o, k);
  }

  /** A whole mdadm_read from a cache that agrees with the device returns the
      device's bytes of the request and leaves the cache agreeing with the
      device. */
  lemma {:induction false} CoherentReadBytes(c: CacheState, blocks: seq<Block>, addr: int, len: nat)
    requires c.amount == ValidCount(c.slots)
    requires |blocks| == NUM_BLOCKS && SlotsCoherent(c.slots, blocks)
    requires 0 <= addr && addr + len <= ADDRESS_SPACE
    ensures var p := ReadRange(c, blocks, addr / BLOCK_SIZE, BlocksTouched(addr, len));
      && Window(p.seen, addr % BLOCK_SIZE, len) == Bytes(blocks, addr, len)
      && SlotsCoherent(p.cache.slots, blocks)
  {
    CoherentRange(c, blocks, addr / BLOCK_SIZE, BlocksTouched(addr, len));
    WindowIsBytes(blocks, addr, len);
  }

  /** A read right after a write of the same block is served from the cache:
      it obtains the first 256 bytes of the write's buffer, whatever the
      device holds. */
  lemma {:induction false} ReadAfterWriteHitsCache(c: CacheState, disk: int, block: int, data: Block, dev: Block)
    requires |c.slots| > 0 && c.amount == ValidCount(c.slots) && InRange(disk, block)
    ensures Fetched(CacheWrite(c, disk, block, data), disk, block, dev) == data
  {
    CacheWriteCaches(c, disk, block, data);
  }

  /** n bytes of the concatenation of the blocks bs, from byte off on. */
  ghost function Window(bs: seq<Block>, off: int, n: nat): (r: seq<byte>)
    requires 0 <= off && (n > 0 ==> off + n <= BLOCK_SIZE * |bs|)
    ensures |r| == n
  {
    seq(n, k requires 0 <= k < n => bs[(off + k) / BLOCK_SIZE][(off + k) % BLOCK_SIZE])
  }

  /** A piece of one more block, starting where the window ends, extends the
      window. */
  lemma {:induction false} WindowAppend(bs: seq<Block>, b: Block, off: int, i: nat, o: int, n: nat)
    requires 0 <= off && (i > 0 ==> off + i <= BLOCK_SIZE * |bs|)
    requires 0 <= o && o + n <= BLOCK_SIZE && off + i == BLOCK_SIZE * |bs| + o
    ensures Window(bs + [b], off, i + n) == Window(bs, off, i) + b[o..o + n]
  {
    var l, r := Window(bs, off, i), b[o..o + n];
    forall k | 0 <= k < i + n
      ensures Window(bs + [b], off, i + n)[k] == (l + r)[k]
    {
      if k < i {
        assert (off + k) / BLOCK_SIZE < |bs|;
      } else {
        assert off + k == BLOCK_SIZE * |bs| + (o + k - i);
      }
    }
  }

  /** The window over the blocks a request touches, from the request's
      offset in its first block, is the device's bytes of the request. */
  lemma {:induction false} WindowIsBytes(blocks: seq<Block>, addr: int, len: nat)
    requires |blocks| == NUM_BLOCKS && 0 <= addr && addr + len <= ADDRESS_SPACE
    ensures Window(blocks[addr / BLOCK_SIZE..addr / BLOCK_SIZE + BlocksTouched(addr, len)], addr % BLOCK_SIZE, len)
         == Bytes(blocks, addr, len)
  {
    var first := addr / BLOCK_SIZE;
    var bs := blocks[first..first + BlocksTouched(addr, len)];
    forall k | 0 <= k < len
      ensures Window(bs, addr % BLOCK_SIZE, len)[k] == Bytes(blocks, addr, len)[k]
    {
      var x := addr % BLOCK_SIZE + k;
      assert addr + k == BLOCK_SIZE * (first + x / BLOCK_SIZE) + x % BLOCK_SIZE;
    }
  }

  /** The client state of mdadm.c: the mount and write-permission flags, the
      process-wide cache and the device behind the protocol. */
  class Mdadm {
    var mounted: int   // is_mounted
    var written: int   // is_written
    const cache: BlockCache
    const disks: Disks

    ghost predicate Valid()
      reads this, cache, cache.slots, disks
    {
      cache.Valid() && disks.Valid()
    }

    constructor (c: BlockCache, d: Disks)
      requires c.Valid() && d.Valid()
      ensures Valid() && cache == c && disks == d && mounted == 0 && written == 0
    {
      cache, disks := c, d;
      mounted, written := 0, 0;
    }

    /** mdadm_mount; `reply` is what the protocol call for the mount word
        returned. */
    method Mount(reply: int) returns (r: int)
      modifies this
      ensures old(mounted) == 0 && reply == NO_ERROR ==> r == 1 && mounted == 1
      ensures !(old(mounted) == 0 && reply == NO_ERROR) ==> r == -1 && mounted == old(mounted)
      ensures written == old(written)
    {
      if mounted == 0 {
        if reply == NO_ERROR {
          mounted := 1;
          return 1;
        } else {
          return -1;
        }
      } else {
        return -1;
      }
    }

    /** mdadm_unmount; `reply` is what the protocol call for the unmount word
        returned. */
    method Unmount(reply: int) returns (r: int)
      modifies this
      ensures old(mounted) == 1 && reply == NO_ERROR ==> r == 1 && mounted == 0
      ensures !(old(mounted) == 1 && reply == NO_ERROR) ==> r == -1 && mounted == old(mounted)
      ensures written == old(written)
    {
      if mounted == 1 {
        if reply == NO_ERROR {
          mounted := 0;
          return 1;
        } else {
          return -1;
        }
      } else {
        return -1;
      }
    }

    /** mdadm_write_permission: success returns 0 and sets the flag. */
    method WritePermission(reply: int) returns (r: int)
      modifies this
      ensures old(mounted) == 1 && reply == NO_ERROR ==> r == 0 && written == 1
      ensures !(old(mounted) == 1 && reply == NO_ERROR) ==> r == -1 && written == old(written)
      ensures mounted == old(mounted)
    {
      if mounted == 1 {
        if reply == NO_ERROR {
          written := 1;
          return 0;
        } else {
          return -1;
        }
      } else {
        return -1;
      }
    }

    /** mdadm_revoke_write_permission: success returns 0 and clears the flag. */
    method RevokeWritePermission(reply: int) returns (r: int)
      modifies this
      ensures old(mounted) == 1 && reply == NO_ERROR ==> r == 0 && written == 0
      ensures !(old(mounted) == 1 && reply == NO_ERROR) ==> r == -1 && written == old(written)
      ensures mounted == old(mounted)
    {
      if mounted == 1 {
        if reply == NO_ERROR {
          written := 0;
          return 0;
        } else {
          return -1;
        }
      } else {
        return -1;
      }
    }

    /** The argument checks shared by read and write, in the order the source
        makes them, after the zero-length no-op: the range must fit the
        address space, the device must be mounted, the length at most 2048,
        and a positive length needs a buffer. */
    predicate Refuses(addr: int, len: int, noBuf: bool): (b: bool)
      reads this
      ensures !b ==> mounted == 1 && addr + len <= ADDRESS_SPACE && len <= MAX_TRANSFER
      ensures !b && noBuf ==> len <= 0
      ensures mounted != 1 || addr + len > ADDRESS_SPACE || len > MAX_TRANSFER ==> b
    {
      addr + len > ADDRESS_SPACE || mounted != 1 || len > MAX_TRANSFER || (len > 0 && noBuf)
    }

    /** Point the device cursor at (disk, block): the two seek operations. */
    method Seek(diskid: int, blockid: int)
      requires disks.Valid()
      requires 0 <= diskid < NUM_DISKS && 0 <= blockid < BLOCKS_PER_DISK
      modifies disks
      ensures disks.Valid() && disks.blocks == old(disks.blocks)
      ensures disks.disk == diskid && disks.block == blockid
    {
      SeekDiskWord(diskid);
      disks.Execute(NewOp(0, Word(diskid), SEEK_TO_DISK), null);
      SeekBlockWord(blockid);
      disks.Execute(NewOp(Word(blockid), 0, SEEK_TO_BLOCK), null);
    }

    /** Select (disk, block) on the device and obtain its contents in tempbuf:
        from the cache on a hit, otherwise by a block read that is then
        inserted into the cache. */
    method FetchForRead(diskid: int, blockid: int, tempbuf: array<byte>)
      requires Valid()
      requires 0 <= diskid < NUM_DISKS && 0 <= blockid < BLOCKS_PER_DISK
      requires tempbuf.Length == BLOCK_SIZE && cache.Apart(tempbuf)
      modifies cache, cache.slots, disks, tempbuf
      ensures Valid() && cache.slots == old(cache.slots) && disks.blocks == old(disks.blocks)
      ensures StateOf(cache) == CacheRead(old(StateOf(cache)), diskid, blockid, disks.blocks[Index(diskid, blockid)])
      ensures tempbuf[..] == Fetched(old(StateOf(cache)), diskid, blockid, disks.blocks[Index(diskid, blockid)])
    {
      Seek(diskid, blockid);
      ghost var c := StateOf(cache);
      var hit := cache.Lookup(diskid, blockid, tempbuf);
      if hit == -1 {
        LoadMissed(c, diskid, blockid, tempbuf);
      }
    }

    /** The miss path of fetching (disk, block) for mdadm_read, with the
        device cursor on that block: read it into tempbuf and cache_insert
        it.  c is the cache before the lookup that failed. */
    method LoadMissed(ghost c: CacheState, diskid: int, blockid: int, tempbuf: array<byte>)
      requires Valid() && disks.disk == diskid && disks.block == blockid
      requires 0 <= diskid < NUM_DISKS && 0 <= blockid < BLOCKS_PER_DISK
      requires tempbuf.Length == BLOCK_SIZE && cache.Apart(tempbuf)
      requires c.amount == ValidCount(c.slots)
      requires StateOf(cache) == c.(queries := cache.queries)
      requires cache.queries == if |c.slots| > 0 && c.amount != 0 then c.queries + 1 else c.queries
      requires |c.slots| > 0 && c.amount != 0 ==> FirstMatch(c.slots, diskid, blockid) == |c.slots|
      modifies cache, cache.slots, disks, tempbuf
      ensures Valid() && cache.slots == old(cache.slots) && disks.blocks == old(disks.blocks)
      ensures StateOf(cache) == CacheRead(c, diskid, blockid, disks.blocks[Index(diskid, blockid)])
      ensures tempbuf[..] == disks.blocks[Index(diskid, blockid)]
    {
      disks.Execute(NewOp(0, 0, READ_BLOCK), tempbuf);
      assert tempbuf[..BLOCK_SIZE] == tempbuf[..];
      if cache.slots != null {
        if c.amount == 0 {
          NoneValidCount(c.slots);
        }
        assert !HasValidKey(c.slots, diskid, blockid);
        FullIffAllValid(c.slots);
      }
      var _ := cache.Insert(diskid, blockid, tempbuf);
    }

    /** mdadm_read.  On success it returns len and buf[0..len) holds the
        request's bytes of the blocks the read obtains (ReadRange): from the cache
        where a lookup hits, from the device otherwise.  When the cache agrees
        with the device on entry, these are the device bytes at
        addr .. addr+len. */
    method Read(addr: int, len: int, buf: array?<byte>) returns (r: int)
      requires Valid()
      requires 0 <= addr && 0 <= len && addr + len <= INT_MAX
      requires buf != null ==> len <= buf.Length
      requires cache.Apart(buf)
      modifies buf, cache, cache.slots, disks
      ensures Valid()
      ensures cache.slots == old(cache.slots) && disks.blocks == old(disks.blocks)
      ensures len == 0 && buf == null ==>
        && r == 0 && unchanged(cache) && unchanged(disks)
        && (cache.slots != null ==> unchanged(cache.slots))
      ensures !(len == 0 && buf == null) && old(Refuses(addr, len, buf == null)) ==>
        && r == -1 && unchanged(cache) && unchanged(disks)
        && (cache.slots != null ==> unchanged(cache.slots))
        && (buf != null ==> unchanged(buf))
      ensures !(len == 0 && buf == null) && !old(Refuses(addr, len, buf == null)) ==>
        && r == len && buf != null
        && buf[len..] == old(buf[len..])
        && (var p := ReadRange(old(StateOf(cache)), disks.blocks, addr / BLOCK_SIZE, BlocksTouched(addr, len));
            && StateOf(cache) == p.cache
            && buf[..len] == Window(p.seen, addr % BLOCK_SIZE, len))
        && (old(Coherent(cache, disks.blocks)) ==>
              Coherent(cache, disks.blocks) && buf[..len] == Bytes(disks.blocks, addr, len))
    {
      var length := addr + len;
      var boundary := NUM_DISKS * DISK_SIZE;
      if len == 0 && buf == null {
        return 0;
      }
      if length > boundary {
        return -1;
      }
      if mounted != 1 {
        return -1;
      }
      if len > MAX_TRANSFER {
        return -1;
      } else if len > 0 && buf == null {
        return -1;
      }
      ghost var start := StateOf(cache);
      ReadBlocks(addr, len, buf);
      if old(Coherent(cache, disks.blocks)) {
        CoherentReadBytes(start, disks.blocks, addr, len);
      }
      return len;
    }

    /** The block loop of mdadm_read, once the arguments are accepted. */
    method ReadBlocks(addr: int, len: int, buf: array<byte>)
      requires Valid()
      requires 0 <= addr && 0 <= len && addr + len <= ADDRESS_SPACE && len <= buf.Length
      requires cache.Apart(buf)
      modifies buf, cache, cache.slots, disks
      ensures Valid()
      ensures cache.slots == old(cache.slots) && disks.blocks == old(disks.blocks)
      ensures buf[len..] == old(buf[len..])
      ensures ReadState(old(StateOf(cache)), disks.blocks, addr / BLOCK_SIZE, BlocksTouched(addr, len), addr % BLOCK_SIZE,
                        StateOf(cache), buf[..len])
    {
      ghost var first := addr / BLOCK_SIZE;
      ghost var blocks := disks.blocks;
      ghost var start := StateOf(cache);
      ghost var st, got := start, [];
      ghost var tail := buf[len..];
      var current_addr := addr;
      var read_bytes := 0;
      var tempbuf := new byte[BLOCK_SIZE];
      var blockvalue := 0;
      var original_off := addr % BLOCK_SIZE;
      var diskid := addr / DISK_SIZE;
      var blockid := (addr % DISK_SIZE) / BLOCK_SIZE;
      var i := 0;
      while i < len
        invariant 0 <= i <= len && current_addr == addr + i
        invariant i < len ==> diskid == DiskOf(current_addr) && blockid == BlockOf(current_addr)
        invariant i < len ==> PieceState(i, len, current_addr % BLOCK_SIZE, original_off, blockvalue)
        invariant Valid() && cache.slots == old(cache.slots) && disks.blocks == blocks
        invariant tempbuf.Length == BLOCK_SIZE && tempbuf != buf && cache.Apart(tempbuf)
        invariant 0 <= blockvalue && first + blockvalue <= NUM_BLOCKS
        invariant i == len ==> blockvalue == BlocksTouched(addr, len)
        invariant StateOf(cache) == st && buf[..i] == got
        invariant ReadState(start, blocks, first, blockvalue, addr % BLOCK_SIZE, st, got)
        invariant buf[len..] == tail
        decreases len - i
      {
        read_bytes, blockvalue, st, got := ReadStep(start, blocks, st, got, addr, i, len, buf, tempbuf, original_off, blockvalue, diskid, blockid);
        current_addr := current_addr + read_bytes;
        diskid := current_addr / DISK_SIZE;
        blockid := (current_addr % DISK_SIZE) / BLOCK_SIZE;
        i := i + read_bytes;
      }
    }

    /** One iteration of mdadm_read's block loop with the loop state it
        carries forward: one more block of the request read. */
    method ReadStep(ghost start: CacheState, ghost blocks: seq<Block>, ghost c: CacheState, ghost got: seq<byte>,
                    addr: int, i: int, len: int, buf: array<byte>, tempbuf: array<byte>,
                    original_off: int, blockvalue: int, diskid: int, blockid: int)
      returns (read_bytes: int, blocks_passed: int, ghost c': CacheState, ghost got': seq<byte>)
      requires Valid()
      requires 0 <= addr && addr + len <= ADDRESS_SPACE && len <= buf.Length && original_off == addr % BLOCK_SIZE
      requires PieceState(i, len, (addr + i) % BLOCK_SIZE, original_off, blockvalue)
      requires diskid == DiskOf(addr + i) && blockid == BlockOf(addr + i)
      requires tempbuf.Length == BLOCK_SIZE && buf != tempbuf && cache.Apart(buf) && cache.Apart(tempbuf)
      requires 0 <= i && StateOf(cache) == c && buf[..i] == got
      requires disks.blocks == blocks && ReadState(start, blocks, addr / BLOCK_SIZE, blockvalue, original_off, c, got)
      modifies buf, tempbuf, cache, cache.slots, disks
      ensures Valid() && cache.slots == old(cache.slots) && disks.blocks == old(disks.blocks)
      ensures 0 < read_bytes <= len - i && blocks_passed == blockvalue + 1
      ensures addr / BLOCK_SIZE + blocks_passed <= NUM_BLOCKS
      ensures i + read_bytes < len ==>
        PieceState(i + read_bytes, len, (addr + i + read_bytes) % BLOCK_SIZE, original_off, blocks_passed)
      ensures i + read_bytes == len ==> blocks_passed == BlocksTouched(addr, len)
      ensures StateOf(cache) == c' && buf[..i + read_bytes] == got'
      ensures ReadState(start, blocks, addr / BLOCK_SIZE, blocks_passed, original_off, c', got')
      ensures buf[i + read_bytes..] == old(buf[i + read_bytes..])
    {
      read_bytes, blocks_passed, c', got' := ReadNext(blocks, c, got, addr, i, len, buf, tempbuf, original_off, blockvalue, diskid, blockid);
      ReadStateStep(start, blocks, addr / BLOCK_SIZE, blockvalue, original_off, c, got, diskid, blockid, (addr + i) % BLOCK_SIZE, read_bytes);
    }

    /** One iteration of mdadm_read's block loop (ReadPiece) in terms of the
        cache state c and the bytes got before it: the block read is block
        index addr/256 + blockvalue, the cache moves on by CacheRead and the
        piece of the Fetched block is appended to got. */
    method ReadNext(ghost blocks: seq<Block>, ghost c: CacheState, ghost got: seq<byte>,
                    addr: int, i: int, len: int, buf: array<byte>, tempbuf: array<byte>,
                    original_off: int, blockvalue: int, diskid: int, blockid: int)
      returns (read_bytes: int, blocks_passed: int, ghost c': CacheState, ghost got': seq<byte>)
      requires Valid()
      requires 0 <= addr && addr + len <= ADDRESS_SPACE && len <= buf.Length && original_off == addr % BLOCK_SIZE
      requires PieceState(i, len, (addr + i) % BLOCK_SIZE, original_off, blockvalue)
      requires diskid == DiskOf(addr + i) && blockid == BlockOf(addr + i)
      requires tempbuf.Length == BLOCK_SIZE && buf != tempbuf && cache.Apart(buf) && cache.Apart(tempbuf)
      requires 0 <= i && StateOf(cache) == c && buf[..i] == got
      requires disks.blocks == blocks && c.amount == ValidCount(c.slots)
      modifies buf, tempbuf, cache, cache.slots, disks
      ensures Valid() && cache.slots == old(cache.slots) && disks.blocks == old(disks.blocks)
      ensures 0 < read_bytes <= len - i && blocks_passed == blockvalue + 1
      ensures addr / BLOCK_SIZE + blocks_passed <= NUM_BLOCKS
      ensures i + read_bytes < len ==>
        PieceState(i + read_bytes, len, (addr + i + read_bytes) % BLOCK_SIZE, original_off, blocks_passed)
      ensures i + read_bytes == len ==> blocks_passed == BlocksTouched(addr, len)
      ensures StateOf(cache) == c' && buf[..i + read_bytes] == got'
      ensures var q, o := addr / BLOCK_SIZE + blockvalue, (addr + i) % BLOCK_SIZE;
        && q < |blocks| && (diskid, blockid) == KeyOf(q)
        && original_off + i == BLOCK_SIZE * blockvalue + o && o + read_bytes <= BLOCK_SIZE
        && c' == CacheRead(c, diskid, blockid, blocks[q])
        && got' == got + Fetched(c, diskid, blockid, blocks[q])[o..o + read_bytes]
      ensures buf[i + read_bytes..] == old(buf[i + read_bytes..])
    {
      ghost var q, o := addr / BLOCK_SIZE + blockvalue, (addr + i) % BLOCK_SIZE;
      NextKey(addr, i, len, original_off, blockvalue);
      ghost var dev := disks.blocks[Index(diskid, blockid)];
      assert dev == blocks[q];
      read_bytes, blocks_passed := ReadPiece(addr, i, len, buf, tempbuf, original_off, blockvalue, diskid, blockid);
      c', got' := CacheRead(c, diskid, blockid, dev), got + Fetched(c, diskid, blockid, dev)[o..o + read_bytes];
    }

    /** One iteration of the block loop of mdadm_read: fetch the block of
        addr+i and copy the piece of it the request covers to buf[i..]. */
    method ReadPiece(addr: int, i: int, len: int, buf: array<byte>, tempbuf: array<byte>,
                     original_off: int, blockvalue: int, diskid: int, blockid: int)
      returns (read_bytes: int, blocks_passed: int)
      requires Valid()
      requires 0 <= addr && addr + len <= ADDRESS_SPACE && len <= buf.Length
      requires PieceState(i, len, (addr + i) % BLOCK_SIZE, original_off, blockvalue)
      requires diskid == DiskOf(addr + i) && blockid == BlockOf(addr + i)
      requires 0 <= diskid < NUM_DISKS && 0 <= blockid < BLOCKS_PER_DISK
      requires tempbuf.Length == BLOCK_SIZE && buf != tempbuf && cache.Apart(buf) && cache.Apart(tempbuf)
      modifies buf, tempbuf, cache, cache.slots, disks
      ensures Valid() && cache.slots == old(cache.slots) && disks.blocks == old(disks.blocks)
      ensures read_bytes == PieceLen((addr + i) % BLOCK_SIZE, i, len) && blocks_passed == blockvalue + 1
      ensures 0 < read_bytes <= len - i
      ensures i + read_bytes < len ==>
        PieceState(i + read_bytes, len, (addr + i + read_bytes) % BLOCK_SIZE, original_off, blocks_passed)
      ensures StateOf(cache) == CacheRead(old(StateOf(cache)), diskid, blockid, disks.blocks[Index(diskid, blockid)])
      ensures var got := Fetched(old(StateOf(cache)), diskid, blockid, disks.blocks[Index(diskid, blockid)]);
        var offset := (addr + i) % BLOCK_SIZE;
        buf[..i + read_bytes] == old(buf[..i]) + got[offset..offset + read_bytes]
      ensures buf[i + read_bytes..] == old(buf[i + read_bytes..])
    {
      var current_addr := addr + i;
      var offset := current_addr % BLOCK_SIZE;
      FetchForRead(diskid, blockid, tempbuf);
      read_bytes, blocks_passed := CopyPieceOut(buf, tempbuf, i, len, offset, original_off, blockvalue);
      NextPiece(current_addr, i, len, offset, original_off, blocks_passed, read_bytes);
    }

    /** Select (disk, block) on the device, put the caller's first 256 bytes
        into the cache (insert on a miss, update on a hit) and read the
        block's current contents into tempbuf. */
    method FetchForWrite(diskid: int, blockid: int, buf: array<byte>, tempbuf: array<byte>)
      requires Valid()
      requires 0 <= diskid < NUM_DISKS && 0 <= blockid < BLOCKS_PER_DISK
      requires tempbuf.Length == BLOCK_SIZE && cache.Apart(tempbuf) && cache.Apart(buf)
      requires cache.slots != null ==> buf.Length >= BLOCK_SIZE
      requires buf != tempbuf
      modifies cache, cache.slots, disks, tempbuf
      ensures Valid() && cache.slots == old(cache.slots) && disks.blocks == old(disks.blocks)
      ensures disks.disk == diskid && disks.block == blockid
      ensures tempbuf[..] == disks.blocks[Index(diskid, blockid)]
      ensures cache.slots != null ==>
        StateOf(cache) == CacheWrite(old(StateOf(cache)), diskid, blockid, buf[..BLOCK_SIZE])
      ensures cache.slots == null ==> cache.hits == old(cache.hits) && cache.queries == old(cache.queries)
    {
      Seek(diskid, blockid);
      RecordWrite(diskid, blockid, buf, tempbuf);
      disks.Execute(NewOp(0, 0, READ_BLOCK), tempbuf);
    }

    /** The cache half of one mdadm_write iteration: cache_lookup into the
        temporary buffer, then cache_insert of the caller's buffer on a miss
        or cache_update with it on a hit. */
    method RecordWrite(diskid: int, blockid: int, buf: array<byte>, tempbuf: array<byte>)
      requires cache.Valid()
      requires 0 <= diskid < NUM_DISKS && 0 <= blockid < BLOCKS_PER_DISK
      requires tempbuf.Length == BLOCK_SIZE && cache.Apart(tempbuf) && cache.Apart(buf)
      requires cache.slots != null ==> buf.Length >= BLOCK_SIZE
      requires buf != tempbuf
      modifies cache, cache.slots, tempbuf
      ensures cache.Valid() && cache.slots == old(cache.slots)
      ensures cache.slots != null ==>
        StateOf(cache) == CacheWrite(old(StateOf(cache)), diskid, blockid, buf[..BLOCK_SIZE])
      ensures cache.slots == null ==> cache.hits == old(cache.hits) && cache.queries == old(cache.queries)
    {
      ghost var c := if cache.slots != null then StateOf(cache) else CacheState([], 0, 0, 0);
      var hit := cache.Lookup(diskid, blockid, tempbuf);
      if hit == -1 {
        if cache.slots != null {
          if c.amount == 0 {
            NoneValidCount(c.slots);
          }
          assert !HasValidKey(c.slots, diskid, blockid);
          FullIffAllValid(c.slots);
        }
        var _ := cache.Insert(diskid, blockid, buf);
      } else {
        ghost var looked := cache.slots[..];
        cache.Update(diskid, blockid, buf);
        assert cache.slots[..] == UpdateMatching(looked, diskid, blockid, buf[..BLOCK_SIZE]);
      }
    }

    /** Select (disk, block) again and write the whole 256-byte tempbuf there. */
    method StoreBlock(diskid: int, blockid: int, tempbuf: array<byte>)
      requires Valid()
      requires 0 <= diskid < NUM_DISKS && 0 <= blockid < BLOCKS_PER_DISK
      requires tempbuf.Length == BLOCK_SIZE && cache.Apart(tempbuf)
      modifies disks, tempbuf
      ensures Valid() && cache.slots == old(cache.slots)
      ensures tempbuf[..] == old(tempbuf[..])
      ensures disks.blocks == old(disks.blocks)[Index(diskid, blockid) := tempbuf[..]]
    {
      Seek(diskid, blockid);
      assert tempbuf[..BLOCK_SIZE] == tempbuf[..];
      disks.Execute(NewOp(0, 0, WRITE_BLOCK), tempbuf);
    }

    /** mdadm_write.  On success it returns len, the device holds buf[0..len)
        at addr .. addr+len and every other byte is as before. */
    method Write(addr: int, len: int, buf: array?<byte>) returns (r: int)
      requires Valid()
      requires 0 <= addr && 0 <= len && addr + len <= INT_MAX
      requires buf != null ==> len <= buf.Length
      requires buf != null && cache.slots != null ==> buf.Length >= BLOCK_SIZE
      requires cache.Apart(buf)
      modifies cache, cache.slots, disks
      ensures Valid() && cache.slots == old(cache.slots) && |disks.blocks| == NUM_BLOCKS
      ensures len == 0 && buf == null ==>
        && r == 0 && unchanged(cache) && unchanged(disks)
        && (cache.slots != null ==> unchanged(cache.slots))
      ensures !(len == 0 && buf == null) && old(Refuses(addr, len, buf == null)) ==>
        && r == -1 && unchanged(cache) && unchanged(disks)
        && (cache.slots != null ==> unchanged(cache.slots))
      ensures !(len == 0 && buf == null) && !old(Refuses(addr, len, buf == null)) ==>
        && r == len && buf != null && WrittenUpTo(old(disks.blocks), disks.blocks, buf[..len], addr, len)
        && (cache.slots != null ==>
              StateOf(cache) == CacheWrites(old(StateOf(cache)), BlockKeys(addr / BLOCK_SIZE, BlocksTouched(addr, len)), buf[..BLOCK_SIZE]))
        && (cache.slots == null ==> cache.hits == old(cache.hits) && cache.queries == old(cache.queries))
    {
      var final_bound := addr + len;
      var write_bound := NUM_DISKS * DISK_SIZE;
      if len == 0 && buf == null {
        return 0;
      }
      if final_bound > write_bound {
        return -1;
      }
      if mounted != 1 {
        return -1;
      }
      if len > MAX_TRANSFER {
        return -1;
      } else if len > 0 && buf == null {
        return -1;
      }
      WriteBlocks(addr, len, buf);
      return len;
    }

    /** The block loop of mdadm_write, once the arguments are accepted: each
        touched block is read fresh, merged and written back whole. */
    method WriteBlocks(addr: int, len: int, buf: array<byte>)
      requires Valid()
      requires 0 <= addr && 0 <= len && addr + len <= ADDRESS_SPACE && len <= buf.Length
      requires cache.slots != null ==> buf.Length >= BLOCK_SIZE
      requires cache.Apart(buf)
      modifies cache, cache.slots, disks
      ensures Valid() && cache.slots == old(cache.slots)
      ensures WrittenUpTo(old(disks.blocks), disks.blocks, buf[..len], addr, len)
      ensures cache.slots != null ==>
        StateOf(cache) == CacheWrites(old(StateOf(cache)), BlockKeys(addr / BLOCK_SIZE, BlocksTouched(addr, len)), buf[..BLOCK_SIZE])
      ensures cache.slots == null ==> cache.hits == old(cache.hits) && cache.queries == old(cache.queries)
    {
      var current_addr := addr;
      var read_bytes := 0;
      var tempbuf := new byte[BLOCK_SIZE];
      var blockvalue := 0;
      var original_off := addr % BLOCK_SIZE;
      ghost var data := buf[..len];
      ghost var orig := disks.blocks;
      ghost var first := addr / BLOCK_SIZE;
      ghost var start := if cache.slots != null then StateOf(cache) else CacheState([], 0, 0, 0);
      ghost var head: Block := if cache.slots != null then buf[..BLOCK_SIZE] else seq(BLOCK_SIZE, _ => 0);
      ghost var keys: seq<(int, int)> := [];
      var diskid := addr / DISK_SIZE;
      var blockid := (addr % DISK_SIZE) / BLOCK_SIZE;
      var i := 0;
      while i < len
        invariant 0 <= i <= len && current_addr == addr + i
        invariant i < len ==> diskid == DiskOf(current_addr) && blockid == BlockOf(current_addr)
        invariant i < len ==> PieceState(i, len, current_addr % BLOCK_SIZE, original_off, blockvalue)
        invariant Valid() && cache.slots == old(cache.slots)
        invariant tempbuf.Length == BLOCK_SIZE && tempbuf != buf && cache.Apart(tempbuf)
        invariant WrittenUpTo(orig, disks.blocks, data, addr, i)
        invariant 0 <= blockvalue && first + blockvalue <= NUM_BLOCKS
        invariant i == len ==> blockvalue == BlocksTouched(addr, len)
        invariant keys == BlockKeys(first, blockvalue)
        invariant cache.slots != null ==> StateOf(cache) == CacheWrites(start, keys, head)
        invariant cache.slots == null ==> cache.hits == old(cache.hits) && cache.queries == old(cache.queries)
        decreases len - i
      {
        read_bytes, blockvalue, keys := WriteNext(orig, data, start, head, keys, addr, i, len, buf, tempbuf,
                                                  original_off, blockvalue, diskid, blockid);
        current_addr := current_addr + read_bytes;
        diskid := current_addr / DISK_SIZE;
        blockid := (current_addr % DISK_SIZE) / BLOCK_SIZE;
        i := i + read_bytes;
      }
    }

    /** One iteration of mdadm_write's block loop with the loop state it
        carries forward: the block keys written so far grow by this block's
        key, and an active cache moves on by one CacheWrite. */
    method WriteNext(ghost orig: seq<Block>, ghost data: seq<byte>, ghost start: CacheState, ghost head: Block,
                     ghost keys: seq<(int, int)>, addr: int, i: int, len: int, buf: array<byte>, tempbuf: array<byte>,
                     original_off: int, blockvalue: int, diskid: int, blockid: int)
      returns (read_bytes: int, blocks_passed: int, ghost keys': seq<(int, int)>)
      requires Valid()
      requires 0 <= addr && addr + len <= ADDRESS_SPACE && len <= buf.Length && original_off == addr % BLOCK_SIZE
      requires PieceState(i, len, (addr + i) % BLOCK_SIZE, original_off, blockvalue)
      requires diskid == DiskOf(addr + i) && blockid == BlockOf(addr + i)
      requires tempbuf.Length == BLOCK_SIZE && buf != tempbuf && cache.Apart(buf) && cache.Apart(tempbuf)
      requires data == buf[..len]
      requires |orig| == NUM_BLOCKS && WrittenUpTo(orig, disks.blocks, data, addr, i)
      requires 0 <= blockvalue && addr / BLOCK_SIZE + blockvalue <= NUM_BLOCKS
      requires keys == BlockKeys(addr / BLOCK_SIZE, blockvalue)
      requires cache.slots != null ==>
        && buf.Length >= BLOCK_SIZE && head == buf[..BLOCK_SIZE]
        && |start.slots| > 0 && start.amount == ValidCount(start.slots)
        && StateOf(cache) == CacheWrites(start, keys, head)
      modifies tempbuf, cache, cache.slots, disks
      ensures Valid() && cache.slots == old(cache.slots)
      ensures 0 < read_bytes <= len - i && blocks_passed == blockvalue + 1
      ensures addr / BLOCK_SIZE + blocks_passed <= NUM_BLOCKS
      ensures i + read_bytes < len ==>
        PieceState(i + read_bytes, len, (addr + i + read_bytes) % BLOCK_SIZE, original_off, blocks_passed)
      ensures i + read_bytes == len ==> blocks_passed == BlocksTouched(addr, len)
      ensures WrittenUpTo(orig, disks.blocks, data, addr, i + read_bytes)
      ensures keys' == BlockKeys(addr / BLOCK_SIZE, blocks_passed)
      ensures cache.slots != null ==> StateOf(cache) == CacheWrites(start, keys', head)
      ensures cache.slots == null ==> cache.hits == old(cache.hits) && cache.queries == old(cache.queries)
    {
      AddressSplit(addr + i);
      read_bytes, blocks_passed := WritePiece(orig, data, addr, i, len, buf, tempbuf, original_off, blockvalue, diskid, blockid);
      PieceCount(addr, i, len, original_off, blockvalue, addr / BLOCK_SIZE, diskid, blockid, read_bytes);
      if cache.slots != null {
        CacheWritesStep(start, keys, head, diskid, blockid);
      }
      keys' := keys + [(diskid, blockid)];
    }

    /** One iteration of the block loop of mdadm_write: fetch the block of
        addr+i, merge the piece of buf the request covers into it and write it
        back. */
    method WritePiece(ghost orig: seq<Block>, ghost data: seq<byte>, addr: int, i: int, len: int, buf: array<byte>,
                      tempbuf: array<byte>, original_off: int, blockvalue: int, diskid: int, blockid: int)
      returns (read_bytes: int, blocks_passed: int)
      requires Valid()
      requires 0 <= addr && addr + len <= ADDRESS_SPACE && len <= buf.Length
      requires cache.slots != null ==> buf.Length >= BLOCK_SIZE
      requires original_off == addr % BLOCK_SIZE
      requires PieceState(i, len, (addr + i) % BLOCK_SIZE, original_off, blockvalue)
      requires diskid == DiskOf(addr + i) && blockid == BlockOf(addr + i)
      requires 0 <= diskid < NUM_DISKS && 0 <= blockid < BLOCKS_PER_DISK
      requires tempbuf.Length == BLOCK_SIZE && buf != tempbuf && cache.Apart(buf) && cache.Apart(tempbuf)
      requires data == buf[..len]
      requires |orig| == NUM_BLOCKS && WrittenUpTo(orig, disks.blocks, data, addr, i)
      modifies tempbuf, cache, cache.slots, disks
      ensures Valid() && cache.slots == old(cache.slots)
      ensures 0 < read_bytes <= len - i
      ensures read_bytes == PieceLen((addr + i) % BLOCK_SIZE, i, len) && blocks_passed == blockvalue + 1
      ensures i + read_bytes < len ==>
        PieceState(i + read_bytes, len, (addr + i + read_bytes) % BLOCK_SIZE, original_off, blocks_passed)
      ensures WrittenUpTo(orig, disks.blocks, data, addr, i + read_bytes)
      ensures cache.slots != null ==>
        StateOf(cache) == CacheWrite(old(StateOf(cache)), diskid, blockid, buf[..BLOCK_SIZE])
      ensures cache.slots == null ==> cache.hits == old(cache.hits) && cache.queries == old(cache.queries)
    {
      FetchForWrite(diskid, blockid, buf, tempbuf);
      read_bytes, blocks_passed := MergeAndStore(orig, data, addr, i, len, buf, tempbuf, original_off, blockvalue, diskid, blockid);
    }

    /** The device half of one mdadm_write iteration, once tempbuf holds the
        device's block: merge the piece of buf the request covers into it and
        write the whole block back. */
    method MergeAndStore(ghost orig: seq<Block>, ghost data: seq<byte>, addr: int, i: int, len: int, buf: array<byte>,
                         tempbuf: array<byte>, original_off: int, blockvalue: int, diskid: int, blockid: int)
      returns (read_bytes: int, blocks_passed: int)
      requires Valid()
      requires 0 <= addr && addr + len <= ADDRESS_SPACE && len <= buf.Length
      requires PieceState(i, len, (addr + i) % BLOCK_SIZE, original_off, blockvalue)
      requires diskid == DiskOf(addr + i) && blockid == BlockOf(addr + i)
      requires tempbuf.Length == BLOCK_SIZE && buf != tempbuf && cache.Apart(tempbuf)
      requires data == buf[..len]
      requires |orig| == NUM_BLOCKS && WrittenUpTo(orig, disks.blocks, data, addr, i)
      requires tempbuf[..] == disks.blocks[Index(diskid, blockid)]
      modifies tempbuf, disks
      ensures Valid()
      ensures 0 < read_bytes <= len - i
      ensures read_bytes == PieceLen((addr + i) % BLOCK_SIZE, i, len) && blocks_passed == blockvalue + 1
      ensures i + read_bytes < len ==>
        PieceState(i + read_bytes, len, (addr + i + read_bytes) % BLOCK_SIZE, original_off, blocks_passed)
      ensures WrittenUpTo(orig, disks.blocks, data, addr, i + read_bytes)
    {
      var current_addr := addr + i;
      var offset := current_addr % BLOCK_SIZE;
      AddressSplit(current_addr);
      ghost var cur := disks.blocks;
      read_bytes, blocks_passed := MergePieceIn(tempbuf, buf, i, len, offset, original_off, blockvalue);
      NextPiece(current_addr, i, len, offset, original_off, blocks_passed, read_bytes);
      PrefixSlice(buf[..], len, i, i + read_bytes);
      WriteStep(orig, cur, data, addr, i, read_bytes, tempbuf[..]);
      StoreBlock(diskid, blockid, tempbuf);
    }
  }

  /** A write followed by a read of the same range returns the written bytes
      when no cache is active (the write puts the caller's bytes, not the
      merged block, into the cache, so with a cache the read may differ). */
  method WriteThenRead(m: Mdadm, addr: int, len: int, data: array<byte>, out: array<byte>)
    returns (w: int, r: int)
    requires m.Valid() && m.mounted == 1 && m.cache.slots == null
    requires 0 <= addr && 0 < len <= MAX_TRANSFER && addr + len <= ADDRESS_SPACE
    requires len <= data.Length && len <= out.Length && data != out
    modifies m.cache, m.disks, out
    ensures w == len && r == len
    ensures out[..len] == data[..len]
  {
    w := m.Write(addr, len, data);
    r := m.Read(addr, len, out);
    forall j | 0 <= j < len ensures out[j] == data[j] {
      assert ByteAt(m.disks.blocks, addr + j) == data[..len][j];
    }
  }
}
