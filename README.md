# JBOD client core in Dafny

This project models the client side of a JBOD ("just a bunch of disks") storage system. The system has 16 disks. Each disk holds 256 blocks of 256 bytes. A client presents those disks as one linear byte space of 1 MiB.

The client has three parts:

- **Block cache** (`cache.c`, module `Cache`). This is a fixed-capacity array of entries. Each entry holds a valid flag, a (disk, block) key, an access counter and a 256-byte payload. Counters track hits, queries and occupied slots. Insertion fills the first free slot. When every slot is valid, insertion evicts the lowest-index slot with the fewest accesses. The class `Cache.BlockCache` keeps the source's static variables as fields over an `array?<Entry>`. Its invariant says two things:
  - the occupancy counter equals the number of valid slots;
  - no two valid slots share a key.
- **Translation engine** (`mdadm.c`, module `Mdadm`):
  - `newop` packs block, disk and command into a 32-bit operation word.
  - The mount and permission toggles form a small guarded state machine.
  - `mdadm_read`/`mdadm_write` check a byte range. Then they walk it block by block. Each block goes through the cache or through the device. A write reads the block, merges in the caller's bytes and writes all 256 bytes back.
  - The class `Mdadm.Mdadm` holds the mount and permission flags, a cache and the device.
  - The remote device is `Device.Disks`. It is a sequence of 4096 blocks plus a seek cursor. Each operation word the engine issues has a defined effect on it.
- **Wire client** (`net.c`, module `Net`):
  - A request is a 5-byte header (a 4-byte network-order operation word and an info byte), optionally followed by a 256-byte block.
  - `nread`/`nwrite` repeat read()/write() calls until `len` bytes have moved, or until a call returns 0 or less.
  - `jbod_client_operation` sends a request and receives a reply. It succeeds only if the reply's info byte is even and the reply echoes the operation word.
  - The socket is replaced by two byte streams: the bytes the server sent, and everything the client has sent. Two integer scripts give what each successive read() or write() call returns.

Shared constants, the byte type, the 256-byte `Block` type and the field views of an operation word are in `jbod.dfy` (module `Jbod`).

What is proved:

- **Cache:** each operation's exact new state; the two invariants; eviction of the first least-accessed slot; lookup finding what insert stored.
- **Encoding:** the layout of `newop`, including the disk/command overlap.
- **Read:** `mdadm_read`'s effect on the cache and its result are stated for every starting cache. Each touched block is obtained from the cache on a hit and from the device otherwise, and the result is the request's bytes of those blocks. When the cache agrees with the device beforehand, that result is exactly the device bytes `[addr, addr+len)`, and the cache still agrees afterwards.
- **Write:** `mdadm_write` changes exactly the bytes `[addr, addr+len)` of `Device.Disks` to the caller's data and leaves every other byte alone. The engine issues its operations to `Device.Disks` directly. Through `Net`, a little-endian host sends block writes without their block (Finding 2), so there the device would not change. Its effect on the cache is stated block by block: each touched block's entry takes the caller's first 256 bytes, which can leave the cache disagreeing with the device.
- **Packets:** packet encoding and parsing are inverse.
- **Transfers:** `nread`/`nwrite` succeed exactly when all `len` bytes moved.
- **Client operation:** the exact condition under which `jbod_client_operation` returns 0.

## Model

| member | source | states |
|---|---|---|
| Jbod.Copy | mdadm.c:140-153 | `memcpy` into an array at an offset: the source bytes replace that range and every other byte is unchanged |
| Cache.ValidCount | cache.c:126-154 | the number of valid slots, which the occupancy counter `cache_amount` tracks; it is at most the slot count |
| Cache.FirstMatch | cache.c:71-81 | the lowest slot index whose disk and block equal the key, valid or not (or the slot count on a miss); no earlier slot matches |
| Cache.FirstFree | cache.c:141-147 | the first slot that is not valid; every earlier slot is valid |
| Cache.Victim | cache.c:127-134 | the eviction choice: a slot with the fewest accesses, and strictly fewer than every earlier slot, so it is the lowest such index |
| Cache.ValidCountUpdate | cache.c:135-153 | overwriting one slot changes the valid count by that slot's change of flag |
| Cache.SameFlagsSameCount | cache.c:86-95 | slots with the same valid flags have the same valid count, so updating payloads and counters keeps occupancy |
| Cache.FullIffAllValid | cache.c:126 | the cache is full (count equals size) if and only if every slot is valid |
| Cache.NoneValidCount | cache.c:28-31 | occupancy is 0 if and only if no slot is valid, matching the counter reset on creation |
| Cache.InsertedKeyFound | cache.c:140-152 | after a fill into the first free slot of a key not held by a valid slot, a lookup of that key finds exactly that slot |
| Cache.FreshKeyKeepsUnique | cache.c:116-124 | storing an entry whose key no valid slot holds keeps keys unique among valid slots |
| Cache.EvictedKeyAbsent | cache.c:135-139 | after eviction in a full cache, the victim's old key is held by no slot |
| Cache.BlockCache.constructor | cache.c:10-14 | the initial state: no cache array and all counters zero |
| Cache.BlockCache.CreateAsWritten | cache.c:25-28 | creation as written: the clearing loop runs over the old size 0. Stale slots that read as valid are all left valid while occupancy is 0 (Finding 1) |
| Cache.BlockCache.Create | cache.c:16-34 | -1 and no change if a cache exists or the count is outside [2, 4096]; otherwise 1, a fresh array of n invalid slots, size n, and queries, hits and occupancy reset; the invariant holds |
| Cache.BlockCache.Destroy | cache.c:36-46 | -1 and no change without a cache; otherwise 1, no array, size and occupancy 0, hits and queries kept |
| Cache.BlockCache.Lookup | cache.c:48-84 | -1 and nothing changed (not even queries) without a cache, without a buffer, with occupancy 0, or with disk outside [0,16] or block outside [0,65536]. Otherwise queries+1, and 1 if and only if some slot matches. On a hit: the first matching slot's payload copied out, hits+1 and that slot's access count +1. On a miss: nothing else changes |
| Cache.BlockCache.Update | cache.c:86-95 | every slot whose key matches, valid or not, gets the buffer's first 256 bytes and one more access; all other slots are unchanged |
| Cache.BlockCache.InsertSlot | cache.c:126-147 | where an insert goes: when not full, a free slot with every earlier slot valid; when full, a slot with the fewest accesses, strictly fewer than every earlier slot |
| Cache.BlockCache.Insert | cache.c:97-156 | 1 if and only if a cache and a buffer exist, the key is in range and no valid slot holds it; then the slot chosen by the fill or eviction rule holds the key, the payload and access count 1, and occupancy grows by one unless the cache was full. On -1 nothing changes. Hits and queries never change, and the invariant holds |
| Cache.BlockCache.HoldsValidKey | cache.c:116-124 | the duplicate scan reports true if and only if a valid slot holds the key |
| Cache.BlockCache.VictimSlot | cache.c:127-134 | the strict-less-than scan from slot 0 returns `Victim` of the slots |
| Cache.BlockCache.FreeSlot | cache.c:141-147 | when not full, the scan returns `FirstFree` of the slots |
| Cache.BlockCache.Enabled | cache.c:158-160 | true if and only if a cache exists |
| Device.Disks.Execute | mdadm.c:124-131 | what one successful operation word does to the device: the seeks set the cursor from the disk or block field, a block read copies the block under the cursor, a block write stores 256 bytes there |
| Mdadm.NewOp | mdadm.c:19-29 | the word is zero from bit 20 up; the block is recoverable from bits 0-7; the disk is recoverable from bits 8-11 and the command from bits 12-17 when disk < 16 |
| Mdadm.SeekDiskWord | mdadm.c:124 | the seek-to-disk word for a real disk carries the seek-to-disk command and that disk |
| Mdadm.SeekBlockWord | mdadm.c:127 | the seek-to-block word for a real block carries the seek-to-block command and that block |
| Mdadm.DiskHighNibbleInCommand | mdadm.c:24-26 | the disk's high nibble is or-ed into the command field, so disk d and command c pack like disk d & 15 with command c or (d >> 4) |
| Mdadm.DiskSixteenCollides | mdadm.c:24-26 | a mount word for disk 16 is bit-for-bit an unmount word for disk 0 |
| Mdadm.DiskOf | mdadm.c:117 | the disk of an address: the disk-sized range the address lies in, a real disk for an address inside the space |
| Mdadm.BlockOf | mdadm.c:118 | the block of an address within its disk: a real block whose 256-byte range holds the address's offset in the disk |
| Mdadm.AddressSplit | mdadm.c:117-118 | every address has a real disk and block, and that pair indexes the address's block |
| Mdadm.Bytes | mdadm.c:86-88 | the n bytes of the linear space from address a, byte k being the device byte at a + k |
| Mdadm.BytesSplit | mdadm.c:119-161 | the bytes of two consecutive ranges concatenate to the bytes of their union |
| Mdadm.ReadStep | mdadm.c:136-156 | a range inside one block is the slice of that block from the address's offset |
| Mdadm.ReadAppend | mdadm.c:136-156 | appending the bytes copied from one block to a correct prefix gives the correct longer prefix |
| Mdadm.WriteStep | mdadm.c:219-248 | merging the next piece of the data into the current block and storing it extends "bytes [addr, addr+i) hold the data, every other byte is original" to i + n |
| Mdadm.PieceLen | mdadm.c:136-160 | the bytes one iteration moves: no more than remain in the block from the offset or in the request, exactly one of the two, and positive while bytes remain |
| Mdadm.NextPiece | mdadm.c:136-160 | after a non-final piece the next piece starts at offset 0 of a block, and the block counter matches the bytes done |
| Mdadm.CopyPieceOut | mdadm.c:136-156 | the four offset/blank branches copy `min(256 - offset, len - i)` bytes from the block at the offset into the buffer at i, and nothing else changes |
| Mdadm.MergePieceIn | mdadm.c:219-239 | the same branches copy that many caller bytes into the block at the offset, and the rest of the block is unchanged |
| Mdadm.CoherentHit | mdadm.c:130 | with a coherent cache, a hit returns the device's block for that key |
| Mdadm.CoherentAccess | mdadm.c:130 | counting an access keeps the cache coherent |
| Mdadm.CoherentInsert | mdadm.c:130-133 | inserting the block just read from the device keeps the cache coherent |
| Mdadm.Mdadm.constructor | mdadm.c:13-14 | the engine starts unmounted, without write permission |
| Mdadm.Mdadm.Mount | mdadm.c:32-43 | 1 and mounted if it was unmounted and the device accepts; otherwise -1 and nothing changes |
| Mdadm.Mdadm.Unmount | mdadm.c:45-56 | 1 and unmounted if it was mounted and the device accepts; otherwise -1 and nothing changes |
| Mdadm.Mdadm.WritePermission | mdadm.c:58-69 | 0 and permission granted if mounted and the device accepts; otherwise -1 and nothing changes |
| Mdadm.Mdadm.RevokeWritePermission | mdadm.c:72-83 | 0 and permission revoked if mounted and the device accepts; otherwise -1 and nothing changes |
| Mdadm.Mdadm.Refuses | mdadm.c:103-115 | the shared argument checks refuse exactly when the range passes the end of the space, the device is not mounted, len > 2048, or a positive length has no buffer |
| Mdadm.Mdadm.Seek | mdadm.c:124-128 | the two seek words move the device cursor to the given disk and block |
| Mdadm.Mdadm.FetchForRead | mdadm.c:124-134 | the cache moves on by `CacheRead` from its old state, and the temporary buffer holds `Fetched`: the first matching slot's data on a lookup hit, the device's block otherwise; the device is unchanged |
| Mdadm.Mdadm.LoadMissed | mdadm.c:130-133 | after a failed lookup, the block read from the device is in the temporary buffer and the cache is in the state `CacheRead` gives for the miss |
| Mdadm.Mdadm.Read | mdadm.c:86-163 | 0 and no effect for length 0 without a buffer. It returns -1 with no effect if the range passes the end of the space, the device is not mounted, len > 2048, or a buffer is missing. Otherwise it returns len; the cache is in the state `ReadRange` gives over the touched blocks, the buffer's first len bytes are the request's bytes of the blocks `ReadRange` obtained, and the rest of the buffer is untouched. When the cache agreed with the device beforehand, those bytes are device bytes [addr, addr+len) and the cache still agrees |
| Mdadm.Mdadm.ReadBlocks | mdadm.c:117-161 | after the loop, the cache and the buffer's first len bytes are where `ReadRange` over the touched blocks takes them (`ReadState`), and the rest of the buffer is untouched |
| Mdadm.Mdadm.ReadStep | mdadm.c:121-160 | one iteration carries the loop state `ReadState` from the blocks passed to one more block, with a positive piece and the offset and block-counter relation re-established |
| Mdadm.Mdadm.ReadNext | mdadm.c:121-160 | one iteration reads block index addr/256 plus the blocks passed: the cache takes one `CacheRead` step for its key and the buffer prefix grows by the piece of the `Fetched` block |
| Mdadm.Mdadm.ReadPiece | mdadm.c:122-160 | one iteration copies `PieceLen` bytes of the `Fetched` block from the current offset after the buffer's first i bytes, leaves the rest of the buffer alone, moves the cache on by `CacheRead`, and re-establishes the offset and block-counter relation |
| Mdadm.Mdadm.RecordWrite | mdadm.c:209-217 | lookup, then insert of the caller's buffer on a miss or update with it on a hit, leaves an active cache in the state `CacheWrite` gives; without a cache, hits and queries are unchanged |
| Mdadm.Mdadm.FetchForWrite | mdadm.c:203-217 | the temporary buffer holds the device's block, and an active cache is in the state `CacheWrite` gives for the caller's first 256 bytes; without a cache, hits and queries are unchanged |
| Mdadm.Mdadm.StoreBlock | mdadm.c:241-248 | re-seeking and writing the block replaces exactly that one block on the device |
| Mdadm.Mdadm.Write | mdadm.c:165-256 | the same early returns as Read, each with no effect; otherwise it returns len, device bytes [addr, addr+len) equal the caller's data, every other byte is unchanged, and an active cache is in the state `CacheWrites` gives over the keys of the blocks touched, in order, with the caller's first 256 bytes for each |
| Mdadm.Mdadm.WriteBlocks | mdadm.c:196-254 | the loop writes the caller's data over [addr, addr+len) and nothing else, and leaves an active cache in the state `CacheWrites` gives over the keys of the blocks touched |
| Mdadm.Mdadm.WriteNext | mdadm.c:199-252 | one iteration carries the loop state forward: the written range grows by a positive piece with all other bytes original, the keys written so far are the touched block keys up to this block, and an active cache is where `CacheWrites` over those keys takes it |
| Mdadm.Mdadm.WritePiece | mdadm.c:201-252 | one iteration extends the written range by a positive piece, all other bytes stay original, and the cache takes one `CacheWrite` step for this block |
| Mdadm.Mdadm.MergeAndStore | mdadm.c:219-248 | with the device's block fetched, merging the piece and storing the block extends the written range by a positive piece and leaves all other bytes original |
| Mdadm.UpdateMatching | cache.c:86-95 | the slots after `cache_update`: every slot whose key matches gets the data and one more access, keeping its flag and key; every other slot is unchanged; the valid count is kept |
| Mdadm.CacheWrite | mdadm.c:209-217 | the cache effect of one write iteration keeps the slot count and keeps occupancy equal to the number of valid slots; an out-of-range key, which lookup and insert both refuse, leaves the cache as it was |
| Mdadm.BlockKeysIndex | mdadm.c:196-197 | each (disk, block) key of a run of touched blocks names a real block, and indexes the block at its position in the run |
| Mdadm.CacheWrites | mdadm.c:199-254 | the cache effect of a whole write, one `CacheWrite` per touched block key in order, keeps the slot count and the occupancy invariant |
| Mdadm.CacheWritesStep | mdadm.c:199-254 | one more touched block extends the fold by one `CacheWrite` of its key |
| Mdadm.CacheWriteCaches | mdadm.c:209-217 | after one write iteration the cache is non-empty, and a lookup of the block's key finds the caller's first 256 bytes, not the merged block |
| Mdadm.WriteLeavesStaleEntry | mdadm.c:209-217 | when the device block differs from the caller's first 256 bytes, the cache after the write iteration no longer agrees with the device |
| Mdadm.PieceKey | mdadm.c:199-201 | the piece at byte i lies in block index addr/256 plus the blocks passed, and its disk and block are that index split |
| Mdadm.LastPiece | mdadm.c:199-254 | when a piece ends the request, the blocks passed equal the blocks the request touches |
| Mdadm.PieceCount | mdadm.c:199-252 | after a piece, its (disk, block) is the next key of the touched blocks, and after the last piece the keys are complete |
| Mdadm.NextKey | mdadm.c:117-160 | the piece of the loop at byte i lies in block index addr/256 plus the blocks passed, a real block whose key is that of the address; when the piece ends the request, the blocks passed after it are all the request touches |
| Mdadm.CacheRead | mdadm.c:130-133 | the cache effect of fetching a block for a read keeps the slot count and the occupancy invariant; without a cache, or for an out-of-range key, nothing changes |
| Mdadm.CacheMiss | cache.c:97-156 | a failed lookup and an insert keep the slot count, the occupancy invariant and the hit counter |
| Mdadm.KeyOf | mdadm.c:117-118 | the key of a real block index is a real disk and block that index that block |
| Mdadm.ReadRange | mdadm.c:119-161 | a read of n consecutive blocks keeps the slot count and the occupancy invariant, obtains one block per block read, and changes nothing without a cache |
| Mdadm.CoherentRead | mdadm.c:130-133 | fetching a block from a cache that agrees with the device obtains the device's block and leaves the cache agreeing |
| Mdadm.CoherentRange | mdadm.c:119-161 | reading a range of blocks from a cache that agrees with the device obtains exactly the device's blocks of the range and leaves the cache agreeing |
| Mdadm.ReadStateStep | mdadm.c:121-160 | fetching the next block of the range and copying a piece of it from where the copy left off extends the loop state by one block |
| Mdadm.CoherentReadBytes | mdadm.c:86-163 | a whole read from a cache that agrees with the device returns the device bytes [addr, addr+len) and leaves the cache agreeing |
| Mdadm.ReadAfterWriteHitsCache | mdadm.c:209-217 | a read right after a write of the same block obtains the caller's first 256 bytes of the write, whatever the device holds |
| Mdadm.WindowAppend | mdadm.c:136-156 | a piece of one more block, from where the bytes so far end, extends them by that piece |
| Mdadm.WindowIsBytes | mdadm.c:86-163 | over the device's own blocks, the request's bytes of the touched blocks are the device bytes [addr, addr+len) |
| Mdadm.BlocksTouched | mdadm.c:119-161 | the number of blocks a request touches: enough to hold it from its offset in the first block, fewer than one block more, and within the space |
| Mdadm.WriteThenRead | mdadm.c:199-254 | with the cache inactive, reading back a range just written returns the written bytes |
| Net.FromBigEndian | net.c:70-72 | decoding four network-order bytes gives the word whose network-order bytes they are |
| Net.Join | net.c:70-72 | the word assembled from four bytes, most significant first, encodes back to those bytes |
| Net.HostToNet | net.c:104 | `htonl` on the given host byte order: the word's network-order bytes are its bytes in host memory, and it is the identity on a big-endian host |
| Net.EncodeDecode | net.c:104 | decoding the network-order bytes of a word gives the word back |
| Net.HostToNetInvolution | net.c:72 | `ntohl(htonl(x)) == x` on either host byte order |
| Net.WireOrder | net.c:104-106 | storing `htonl(op)` in host memory order puts op's big-endian bytes on the wire |
| Net.ReadOrder | net.c:70-72 | loading four header bytes in host order and applying `ntohl` gives their big-endian value |
| Net.Encode | net.c:104-118 | the packet's bytes: op in network order, the info byte, then the payload, and nothing else |
| Net.Parse | net.c:63-84 | a packet parses if and only if the header is there and, when info bit 1 is set, the 256-byte payload too; the parsed packet is well formed and carries the header's op and info |
| Net.EncodeParse | net.c:63-84 | parsing the encoding of a well-formed packet, whatever follows it, gives the packet back |
| Net.ParseEncode | net.c:63-84 | whatever parses is well formed, and its encoding is exactly the parsed prefix of the stream |
| Net.WriteTestAsWritten | net.c:109 | the test reads the command field of `htonl(op)`; on a little-endian host these are bits 20-23 and 8-9 of op |
| Net.LittleEndianMissesWrites | net.c:109 | on a little-endian host, the write test as written fails on every write word zero from bit 20 up (every word `newop` packs), and `send_packet` sends only the header with info 0 (Finding 2) |
| Net.WriteTest | net.c:109 | the intended write test, on `op` itself: it holds if and only if the test as written holds on a big-endian host |
| Net.Wire | net.c:98-123 | the bytes `send_packet` puts on the wire: the header and the block when the test as written passes, the header alone otherwise; they parse back as the request |
| Net.WriteTestAttachesWrites | net.c:109-118 | with the intended test, a write request parses back as that word, info 2 and the block; on a big-endian host `send_packet` sends exactly that |
| Net.Request | net.c:104-123 | the request packet carries op, and carries info 2 and the first 256 block bytes when the block is attached or info 0 otherwise; it is well formed |
| Net.Returned | net.c:24-25 | a call moves at most what was asked and what is available, and moves something if and only if the call did not fail and bytes remain |
| Net.Accumulate | net.c:20-31 | the accumulated count never falls below its start and never exceeds len or what is available |
| Net.AccumulateStep | net.c:23-29 | one call of the loop: a result of 0 or less ends the transfer in failure after i bytes; a positive result moves that many bytes and the loop goes on |
| Net.AccumulateOutcome | net.c:20-31 | a transfer succeeds if and only if all len bytes moved; a failure is always a call that returned 0 or less |
| Net.AccumulateSucceeds | net.c:23-29 | if enough bytes are available and every call returns a positive amount, the transfer succeeds |
| Net.Receive | net.c:63-84 | a receive consumes no more than the stream holds, and a successful one consumes the header plus the payload |
| Net.ReceiveParses | net.c:63-84 | a successful receive decodes exactly the packet at the front of the stream |
| Net.ReceiveRoundTrip | net.c:63-84 | receiving a sent well-formed packet yields its op, info and payload when the calls do not fail |
| Net.NRead | net.c:20-31 | the loop ends with `Accumulate`'s outcome, and the destination starts with exactly the bytes read; the rest is unchanged |
| Net.CopyChunk | net.c:24 | one read() call puts the next stream bytes right after the bytes already read and leaves the rest of the buffer alone |
| Net.NWrite | net.c:36-47 | the loop ends with `Accumulate`'s outcome, and the bytes sent are exactly the first count bytes of the source |
| Net.SendPacket | net.c:98-134 | the bytes sent are a prefix of the encoded request: op in network order, then info 2 and the block when the command field of `htonl(op)` is a block write (the test as written), or info 0 and no block otherwise. Success means the whole request went out |
| Net.RecvPacket | net.c:63-84 | success, op, info byte, consumed bytes and payload agree with `Receive` on the stream |
| Net.Client.constructor | net.c:15 | the client starts with no socket (-1) and nothing sent or read |
| Net.Client.Connect | net.c:143-162 | the descriptor is stored, and the result is true if and only if the socket, the address and the connect all succeed |
| Net.Client.Disconnect | net.c:167-170 | the descriptor becomes -1 and nothing else changes |
| Net.Client.Operation | net.c:180-207 | 0 if and only if there is a socket, the send and the receive succeed, the info byte is even and the echoed op equals op; otherwise -1. Without a socket nothing changes; otherwise the outbox grows by what was sent and the bytes consumed and the block are those of `Receive` |

## Left out

- Sockets are not modelled: `socket`, `inet_aton`, `connect` and `close`, and the `read`/`write` system calls. Their results are parameters or integer scripts: `Client.Connect` takes whether each step succeeded, and one script entry stands for each read()/write() call. Errno and signals are not modelled.
- The server's side of the protocol is not modelled. `Device.Disks` stands for the effect of operations the server performs successfully. The source asserts that every operation inside the read and write loops succeeds.
- `Mdadm.Mdadm.Mount`, `Unmount`, `WritePermission` and `RevokeWritePermission` take the server's reply code as a parameter. The engine and `Net.Client` are not wired together: the engine's calls go straight to `Device.Disks`.
- `cache_print_hit_rate` is left out because it only formats floating point to stderr.
- Allocation is not modelled:
  - `malloc`/`free` and the temporary buffer leaked per call;
  - `free` called after the cache variable is set to NULL in `cache_destroy`.
  - The cache array is an `array?` that `Create` allocates fresh.
- The values in `jbod.h`/`net.h` are not part of this model. The constants in `jbod.dfy` are the values the source relies on: 256-byte blocks, 256 blocks per disk, 16 disks, a 5-byte header, commands 0-7.
- Cache.BlockCache.Lookup, Insert and Update: the hit, query and access counters are unbounded integers, so 32-bit signed overflow is not modelled.
- Mdadm.Mdadm.Read, Mdadm.Mdadm.Write: the requires excludes requests where `addr + len` exceeds 2^31 - 1. The source adds the two as `uint32_t`, which wraps, and converts the sum to `int`, so such requests take paths the model does not cover. For example, addr 0xFFFFFFF0 with len 0x20 wraps to 16, passes the bound check, and leads to disk 65535.
- Mdadm.Mdadm.Write: when a cache exists, the caller's buffer must hold 256 bytes. The source always copies 256 bytes from it into the cache, even for a shorter write.
- A cache that disagrees with the device is not an error in the model. `mdadm_write` stores the first 256 bytes of the caller's buffer in the cache, not the merged block. After a partial or unaligned write, the cache can therefore disagree with the device (`Mdadm.WriteLeavesStaleEntry`). `Mdadm.Mdadm.Read` then returns the cached bytes (`Mdadm.ReadAfterWriteHitsCache`), as the source does.
- Mdadm.WriteThenRead is stated only with the cache inactive, for the same reason.
- Net.Client.Operation sends with the test as written, like the source. On a little-endian host a block write therefore goes out without its block (Finding 2). The intended test is `Net.WriteTest`, and on a big-endian host the two coincide (its ensures).
- Net.RecvPacket requires that a null block is never asked for a payload. Passing a null block when info bit 1 is set is undefined behaviour in the source.
- Net.RecvPacket: when the header read fails, its op and info results are unspecified. The source leaves them untouched.
- Net.RecvPacket is written with a single exit. Its results are those of the source's early returns.
- Net.Client.Operation: the block's final contents are stated only through `Receive`. Aliasing between the block and the packet buffers is not modelled.

Where the source and its description differ, the model follows the source:

- Lookup matches a slot by key without consulting its valid flag.
- Early lookup refusals do not count a query.
- Destroy keeps the hit and query counters.
- Key bounds are inclusive: disk up to 16 and block up to 65536, because the checks use `>`.
- The permission functions return 0 on success, not 1.

## Findings

| source | as written | input that shows it | evidently intended | confidence | as-written member | corrected member |
|---|---|---|---|---|---|---|
| cache.c:25 | the loop that clears the valid flags runs up to `cache_size`, which is still 0 when it runs; the new slots keep whatever flags the allocation held | any `cache_create(n)` whose freshly allocated slots read as valid: all n slots stay valid while `cache_amount` is 0 | clear all `num_entries` new slots, so occupancy 0 means no valid slot | not executed | Cache.BlockCache.CreateAsWritten | Cache.BlockCache.Create |
| net.c:109 | the write test reads the command field of `htonl(op)`, the network-order word, not of `op` | on a little-endian host, `newop(b, d, JBOD_WRITE_BLOCK)` for any disk d < 16: the tested field is `(d & 3) << 4`, never 5, so the block is not sent | test the command field of `op` itself, so write requests carry their block | not executed | Net.LittleEndianMissesWrites | Net.WriteTestAttachesWrites |
