/** The client side of the JBOD wire protocol (net.c): byte order, the packet
    layout, the accumulate-until-len loops of nread/nwrite against an abstract
    chunk source, send_packet, recv_packet and jbod_client_operation.  The
    socket is replaced by an input byte stream the server has sent, an output
    byte stream of everything sent, and two chunk oracles telling what each
    read() or write() call returns. */
module Net {
  import opened Jbod

  datatype Option<T> = None | Some(value: T)

  // ---------------------------------------------------------------------
  // Byte order

  /** Byte order of the host the client runs on. */
  datatype Endian = LittleEndian | BigEndian

  /** The four bytes of w, most significant first (network order). */
  function BigEndianBytes(w: bv32): (b: seq<byte>)
    ensures |b| == 4
  {
    [(w >> 24) as byte, ((w >> 16) & 0xff) as byte, ((w >> 8) & 0xff) as byte, (w & 0xff) as byte]
  }

  /** The word whose network-order bytes are b: encoding it gives b back. */
  function FromBigEndian(b: seq<byte>): (w: bv32)
    requires |b| == 4
    ensures BigEndianBytes(w) == b
  {
    Join(b[0], b[1], b[2], b[3])
  }

  function Join(b0: byte, b1: byte, b2: byte, b3: byte): (w: bv32)
    ensures BigEndianBytes(w) == [b0, b1, b2, b3]
  {
    (b0 as bv32 << 24) | (b1 as bv32 << 16) | (b2 as bv32 << 8) | b3 as bv32
  }

  /** Encoding then decoding a word gives it back. */
  lemma EncodeDecode(w: bv32)
    ensures FromBigEndian(BigEndianBytes(w)) == w
  {
  }

  /** Reverse the byte order of a word. */
  function ByteSwap(w: bv32): bv32 {
    ((w & 0xff) << 24) | ((w & 0xff00) << 8) | ((w >> 8) & 0xff00) | (w >> 24)
  }

  /** htonl (and ntohl, which is the same map): the identity on a big-endian
      host, a byte swap on a little-endian one. */
  function HostToNet(w: bv32, host: Endian): (r: bv32)
    ensures BigEndianBytes(r) == HostBytes(w, host)
    ensures host == BigEndian ==> r == w
  {
    if host == BigEndian then w else ByteSwap(w)
  }

  /** htonl and ntohl undo each other. */
  lemma HostToNetInvolution(w: bv32, host: Endian)
    ensures HostToNet(HostToNet(w, host), host) == w
  {
  }

  /** The bytes a uint32 occupies in host memory, lowest address first. */
  function HostBytes(w: bv32, host: Endian): (b: seq<byte>)
    ensures |b| == 4
  {
    var n := BigEndianBytes(w);
    if host == BigEndian then n else [n[3], n[2], n[1], n[0]]
  }

  /** The uint32 that memcpy builds from four bytes of memory. */
  function FromHostBytes(b: seq<byte>, host: Endian): bv32
    requires |b| == 4
  {
    if host == BigEndian then FromBigEndian(b) else FromBigEndian([b[3], b[2], b[1], b[0]])
  }

  /** Copying htonl(op) out of memory lays op down in network order, on
      either host. */
  lemma WireOrder(op: bv32, host: Endian)
    ensures HostBytes(HostToNet(op, host), host) == BigEndianBytes(op)
  {
  }

  /** Copying four network-order bytes into a uint32 and applying ntohl
      decodes them, on either host. */
  lemma ReadOrder(b: seq<byte>, host: Endian)
    requires |b| == 4
    ensures HostToNet(FromHostBytes(b, host), host) == FromBigEndian(b)
  {
    if host == LittleEndian {
      SwapJoin(b[0], b[1], b[2], b[3]);
    }
  }

  /** Swapping the word assembled from reversed bytes assembles them in order. */
  lemma SwapJoin(b0: byte, b1: byte, b2: byte, b3: byte)
    ensures ByteSwap(Join(b3, b2, b1, b0)) == Join(b0, b1, b2, b3)
  {
  }

  // ---------------------------------------------------------------------
  // Packet layout

  /** A decoded packet: the operation word, the info byte and the payload
      (256 bytes when info bit 1 is set, otherwise none). */
  datatype Packet = Packet(op: bv32, info: byte, payload: seq<byte>)

  /** The payload is present exactly when info bit 1 says so. */
  predicate WellFormed(p: Packet) {
    if p.info & 2 != 0 then |p.payload| == BLOCK_SIZE else p.payload == []
  }

  /** The bytes of a packet on the wire: 4-byte network-order op, the info
      byte, then the payload. */
  function Encode(p: Packet): (b: seq<byte>)
    ensures |b| == HEADER_LEN + |p.payload|
    ensures FromBigEndian(b[..4]) == p.op && b[4] == p.info && b[HEADER_LEN..] == p.payload
  {
    BigEndianBytes(p.op) + [p.info] + p.payload
  }

  /** Parse the packet at the front of a byte stream: the header, then 256
      payload bytes iff info bit 1 is set; None when the stream is too short. */
  function Parse(b: seq<byte>): (r: Option<Packet>)
    ensures r.Some? <==> |b| >= HEADER_LEN && (b[4] & 2 != 0 ==> |b| >= HEADER_LEN + BLOCK_SIZE)
    ensures r.Some? ==> WellFormed(r.value) && BigEndianBytes(r.value.op) == b[..4] && r.value.info == b[4]
  {
    if |b| < HEADER_LEN then None
    else
      var op := FromBigEndian(b[..4]);
      var info := b[4];
      if info & 2 == 0 then Some(Packet(op, info, []))
      else if |b| < HEADER_LEN + BLOCK_SIZE then None
      else Some(Packet(op, info, b[HEADER_LEN..HEADER_LEN + BLOCK_SIZE]))
  }

  /** Parsing an encoded well-formed packet, whatever follows it, gives the
      packet back. */
  lemma {:induction false} EncodeParse(p: Packet, rest: seq<byte>)
    requires WellFormed(p)
    ensures Parse(Encode(p) + rest) == Some(p)
  {
    var b := Encode(p) + rest;
    assert b[..4] == BigEndianBytes(p.op);
    EncodeDecode(p.op);
    assert b[4] == p.info;
    if p.info & 2 != 0 {
      assert b[HEADER_LEN..HEADER_LEN + BLOCK_SIZE] == p.payload;
    }
  }

  /** Whatever parses is a well-formed packet whose encoding is a prefix of
      the stream. */
  lemma {:induction false} ParseEncode(b: seq<byte>)
    requires Parse(b).Some?
    ensures WellFormed(Parse(b).value)
    ensures |Encode(Parse(b).value)| <= |b| && b[..|Encode(Parse(b).value)|] == Encode(Parse(b).value)
  {
    var p := Parse(b).value;
    assert b[..HEADER_LEN] == BigEndianBytes(p.op) + [p.info];
    if p.info & 2 != 0 {
      assert b[..HEADER_LEN + BLOCK_SIZE] == b[..HEADER_LEN] + b[HEADER_LEN..HEADER_LEN + BLOCK_SIZE];
    }
  }

  // ---------------------------------------------------------------------
  // The write test of send_packet

  /** The test as the source makes it: the 6-bit command field of the
      network-order word.  On a little-endian host the bits it reads are
      bits 20-23 of op (as the low four) and bits 8-9 of op (as the top two). */
  predicate WriteTestAsWritten(op: bv32, host: Endian): (b: bool)
    ensures host == LittleEndian ==> (b <==> ((op >> 20) & 0xf) | (((op >> 8) & 3) << 4) == WRITE_BLOCK)
  {
    CommandField(HostToNet(op, host)) == WRITE_BLOCK
  }

  /** The intended test: the command field of the operation itself.  It is
      what the test as written computes on a big-endian host. */
  predicate WriteTest(op: bv32): (b: bool)
    ensures b <==> WriteTestAsWritten(op, BigEndian)
  {
    CommandField(op) == WRITE_BLOCK
  }

  /** The bytes send_packet puts on the wire for op on a host of the given
      byte order, with the test as the source makes it: the header, and the
      block after it exactly when that test passes. */
  function Wire(op: bv32, host: Endian, block: seq<byte>): (r: seq<byte>)
    requires WriteTestAsWritten(op, host) ==> |block| >= BLOCK_SIZE
    ensures |r| == if WriteTestAsWritten(op, host) then HEADER_LEN + BLOCK_SIZE else HEADER_LEN
    ensures Parse(r) == Some(Request(op, WriteTestAsWritten(op, host), block))
  {
    var p := Request(op, WriteTestAsWritten(op, host), block);
    EncodeParse(p, []);
    assert Encode(p) + [] == Encode(p);
    Encode(p)
  }

  /** On a little-endian host the test as written never recognises a write
      word of the shape newop packs (zero from bit 20 up): the bits it
      inspects hold bits 8-9 of the word (the low two bits of the disk id)
      shifted left by 4, so the request goes out as a bare header with info
      byte 0 and without the block to write. */
  lemma {:induction false} LittleEndianMissesWrites(op: bv32, data: seq<byte>)
    requires op >> 20 == 0 && WriteTest(op)
    ensures CommandField(HostToNet(op, LittleEndian)) == ((op >> 8) & 3) << 4
    ensures !WriteTestAsWritten(op, LittleEndian)
    ensures Wire(op, LittleEndian, data) == BigEndianBytes(op) + [0]
  {
    assert CommandField(HostToNet(op, LittleEndian)) == ((op >> 8) & 3) << 4;
  }

  /** With the intended test every write word goes out with its block, and
      the receiving side parses back the word and the block; on a big-endian
      host that is what send_packet already sends. */
  lemma {:induction false} WriteTestAttachesWrites(op: bv32, data: seq<byte>)
    requires WriteTest(op) && |data| == BLOCK_SIZE
    ensures Parse(Encode(Request(op, WriteTest(op), data))) == Some(Packet(op, 2, data))
    ensures Wire(op, BigEndian, data) == Encode(Request(op, WriteTest(op), data))
  {
    assert data[..BLOCK_SIZE] == data;
    EncodeParse(Request(op, true, data), []);
    assert Encode(Request(op, true, data)) + [] == Encode(Request(op, true, data));
  }

  /** The packet send_packet builds for op when `attach` is the outcome of
      its write test: info byte 2 and the block, or info byte 0 alone. */
  function Request(op: bv32, attach: bool, block: seq<byte>): (p: Packet)
    requires attach ==> |block| >= BLOCK_SIZE
    ensures WellFormed(p) && p.op == op
    ensures attach ==> p.info == 2 && p.payload == block[..BLOCK_SIZE]
    ensures !attach ==> p.info == 0
  {
    if attach then Packet(op, 2, block[..BLOCK_SIZE]) else Packet(op, 0, [])
  }

  // ---------------------------------------------------------------------
  // Accumulating transfers

  /** What one read() or write() call returns when the oracle offers c:
      an error or end of stream (c <= 0) as is, otherwise c bytes capped by
      the bytes asked for and the bytes available. */
  function Returned(c: int, want: nat, avail: nat): (v: int)
    ensures v <= want && v <= avail
    ensures want > 0 ==> (v > 0 <==> c > 0 && avail > 0)
  {
    if c <= 0 then c
    else if c <= want && c <= avail then c
    else if want <= avail then want
    else avail
  }

  /** The result of oracle call k: the k-th entry of the script, or 0 (the
      peer closed the connection) once the script is exhausted. */
  function Call(script: seq<int>, k: nat): int {
    if k < |script| then script[k] else 0
  }

  /** Outcome of an accumulating transfer: success, bytes moved, and the
      index of the next oracle call. */
  datatype Transfer = Transfer(ok: bool, count: nat, calls: nat)

  /** The reference outcome of nread/nwrite: call after call, starting with
      oracle call k and i bytes already moved, until len bytes are moved or a
      call returns <= 0.  It succeeds exactly when all len bytes are moved,
      and a failure is always a call that returned <= 0. */
  function Accumulate(len: nat, avail: nat, chunk: seq<int>, k: nat, i: nat): (t: Transfer)
    requires i <= len && i <= avail
    ensures i <= t.count <= len && t.count <= avail
    decreases len - i
  {
    if i == len then Transfer(true, i, k)
    else
      var value := Returned(Call(chunk, k), len - i, avail - i);
      if value <= 0 then Transfer(false, i, k + 1)
      else Accumulate(len, avail, chunk, k + 1, i + value)
  }

  /** A transfer succeeds exactly when all len bytes are moved; a failure
      is always the last call returning <= 0. */
  lemma {:induction false} AccumulateOutcome(len: nat, avail: nat, chunk: seq<int>, k: nat, i: nat)
    requires i <= len && i <= avail
    ensures var t := Accumulate(len, avail, chunk, k, i);
      && k <= t.calls
      && (t.ok <==> t.count == len)
      && (!t.ok ==> k < t.calls && Returned(Call(chunk, t.calls - 1), len - t.count, avail - t.count) <= 0)
    decreases len - i
  {
    if i < len {
      var value := Returned(Call(chunk, k), len - i, avail - i);
      if value > 0 {
        AccumulateOutcome(len, avail, chunk, k + 1, i + value);
      }
    }
  }

  /** One call of a transfer: a call returning <= 0 ends it in failure,
      any other moves that many bytes and the transfer goes on. */
  lemma AccumulateStep(len: nat, avail: nat, chunk: seq<int>, k: nat, i: nat, value: int)
    requires i < len && i <= avail && value == Returned(Call(chunk, k), len - i, avail - i)
    ensures value <= 0 ==> Accumulate(len, avail, chunk, k, i) == Transfer(false, i, k + 1)
    ensures value > 0 ==> Accumulate(len, avail, chunk, k, i) == Accumulate(len, avail, chunk, k + 1, i + value)
  {
  }

  /** When enough bytes are available and each of the next calls moves at
      least one byte, the transfer succeeds. */
  lemma {:induction false} AccumulateSucceeds(len: nat, avail: nat, chunk: seq<int>, k: nat, i: nat)
    requires i <= len <= avail
    requires forall j :: k <= j < k + (len - i) ==> Call(chunk, j) > 0
    ensures Accumulate(len, avail, chunk, k, i).ok
    decreases len - i
  {
    if i < len {
      var value := Returned(Call(chunk, k), len - i, avail - i);
      AccumulateSucceeds(len, avail, chunk, k + 1, i + value);
    }
  }

  /** Copying a piece right after a prefix already in place extends the
      prefix and leaves the rest of the original buffer alone. */
  lemma Splice(orig: seq<byte>, prefix: seq<byte>, piece: seq<byte>, cur: seq<byte>, next: seq<byte>)
    requires |prefix| + |piece| <= |orig| && cur == prefix + orig[|prefix|..]
    requires next == cur[..|prefix|] + piece + cur[|prefix| + |piece|..]
    ensures next == (prefix + piece) + orig[|prefix| + |piece|..]
  {
    assert cur[..|prefix|] == prefix;
    assert cur[|prefix| + |piece|..] == orig[|prefix| + |piece|..];
  }

  // ---------------------------------------------------------------------
  // Receiving

  /** Outcome of recv_packet on the bytes still to be read: success, the
      decoded header fields, the payload bytes read, how many stream bytes
      were consumed and the next oracle call. */
  datatype Received = Received(ok: bool, op: bv32, info: byte, payload: seq<byte>, used: nat, calls: nat)

  /** The reference outcome of recv_packet: read the header with nread; then
      read 256 payload bytes with nread iff info bit 1 is set. */
  function Receive(stream: seq<byte>, chunk: seq<int>, k: nat): (r: Received)
    ensures r.used <= |stream|
    ensures r.ok ==> r.used == HEADER_LEN + |r.payload|
  {
    var h := Accumulate(HEADER_LEN, |stream|, chunk, k, 0);
    AccumulateOutcome(HEADER_LEN, |stream|, chunk, k, 0);
    if !h.ok then Received(false, 0, 0, [], h.count, h.calls)
    else
      var op := FromBigEndian(stream[..4]);
      var info := stream[4];
      if info & 2 == 0 then Received(true, op, info, [], HEADER_LEN, h.calls)
      else
        var b := Accumulate(BLOCK_SIZE, |stream| - HEADER_LEN, chunk, h.calls, 0);
        AccumulateOutcome(BLOCK_SIZE, |stream| - HEADER_LEN, chunk, h.calls, 0);
        Received(b.ok, op, info, stream[HEADER_LEN..HEADER_LEN + b.count], HEADER_LEN + b.count, b.calls)
  }

  /** A successful receive decodes exactly the packet at the front of the
      stream. */
  lemma {:induction false} ReceiveParses(stream: seq<byte>, chunk: seq<int>, k: nat)
    requires Receive(stream, chunk, k).ok
    ensures var r := Receive(stream, chunk, k);
      Parse(stream) == Some(Packet(r.op, r.info, r.payload))
  {
    AccumulateOutcome(HEADER_LEN, |stream|, chunk, k, 0);
    var h := Accumulate(HEADER_LEN, |stream|, chunk, k, 0);
    if stream[4] & 2 != 0 {
      AccumulateOutcome(BLOCK_SIZE, |stream| - HEADER_LEN, chunk, h.calls, 0);
    }
  }

  /** When the stream holds a well-formed packet and the oracle keeps
      delivering, the receive succeeds and returns that packet: what
      send_packet encodes, recv_packet decodes. */
  lemma {:induction false} ReceiveRoundTrip(p: Packet, rest: seq<byte>, chunk: seq<int>, k: nat)
    requires WellFormed(p)
    requires forall j :: k <= j < k + HEADER_LEN + BLOCK_SIZE ==> Call(chunk, j) > 0
    ensures var r := Receive(Encode(p) + rest, chunk, k);
      r.ok && r.op == p.op && r.info == p.info && r.payload == p.payload
  {
    var stream := Encode(p) + rest;
    EncodeParse(p, rest);
    AccumulateSucceeds(HEADER_LEN, |stream|, chunk, k, 0);
    AccumulateOutcome(HEADER_LEN, |stream|, chunk, k, 0);
    CallsBound(HEADER_LEN, |stream|, chunk, k, 0);
    var h := Accumulate(HEADER_LEN, |stream|, chunk, k, 0);
    if stream[4] & 2 != 0 {
      AccumulateSucceeds(BLOCK_SIZE, |stream| - HEADER_LEN, chunk, h.calls, 0);
    }
    assert Receive(stream, chunk, k).ok;
    ReceiveParses(stream, chunk, k);
  }

  /** A transfer makes at most one call per byte still to move. */
  lemma {:induction false} CallsBound(len: nat, avail: nat, chunk: seq<int>, k: nat, i: nat)
    requires i <= len && i <= avail
    ensures Accumulate(len, avail, chunk, k, i).calls <= k + (len - i)
    decreases len - i
  {
    if i < len {
      var value := Returned(Call(chunk, k), len - i, avail - i);
      if value > 0 {
        CallsBound(len, avail, chunk, k + 1, i + value);
      }
    }
  }

  /** What one read() call does to the buffer: the `value` stream bytes at
      `at` land right after the `at - start` bytes already read. */
  method CopyChunk(dst: array<byte>, ghost orig: seq<byte>, stream: seq<byte>, start: nat, at: nat, i: nat, value: nat)
    requires at == start + i && at + value <= |stream| && i + value <= |orig| == dst.Length
    requires dst[..] == stream[start..at] + orig[i..]
    modifies dst
    ensures dst[..] == stream[start..at + value] + orig[i + value..]
  {
    ghost var before := dst[..];
    Copy(dst, i, stream[at..at + value]);
    Splice(orig, stream[start..at], stream[at..at + value], before, dst[..]);
    assert stream[start..at + value] == stream[start..at] + stream[at..at + value];
  }

  // ---------------------------------------------------------------------
  // The socket operations.  The socket is a parameter: `stream` holds the
  // bytes the server sent that are still unread, `chunk` scripts the results
  // of read() or write() calls and `k0` numbers the first call.

  /** nread: read exactly len bytes of the stream (from `start` on) into dst,
      one read() call at a time; stop with false at the first call that
      returns <= 0.  Returns the stream position reached and the next call. */
  method NRead(len: nat, dst: array<byte>, stream: seq<byte>, start: nat, chunk: seq<int>, k0: nat)
    returns (ok: bool, at: nat, k: nat)
    requires len <= dst.Length && start <= |stream|
    modifies dst
    ensures var t := Accumulate(len, |stream| - start, chunk, k0, 0);
      && ok == t.ok && at == start + t.count && k == t.calls
      && dst[..] == stream[start..at] + old(dst[t.count..])
  {
    ghost var avail := |stream| - start;
    ghost var orig := dst[..];
    var i := 0;
    at, k := start, k0;
    ok := true;
    while i < len
      invariant i <= len && i <= avail && at == start + i
      invariant Accumulate(len, avail, chunk, k, i) == Accumulate(len, avail, chunk, k0, 0)
      invariant dst[..] == stream[start..at] + orig[i..]
      decreases len - i
    {
      var value := Returned(Call(chunk, k), len - i, |stream| - at);
      AccumulateStep(len, avail, chunk, k, i, value);
      k := k + 1;
      if value <= 0 {
        ok := false;
        break;
      }
      CopyChunk(dst, orig, stream, start, at, i, value);
      at := at + value;
      i := i + value;
    }
  }

  /** nwrite: write exactly len bytes of src, one write() call at a time;
      stop with false at the first call that returns <= 0.  Returns the bytes
      that went out and the next call. */
  method NWrite(len: nat, src: array<byte>, chunk: seq<int>, k0: nat) returns (ok: bool, sent: seq<byte>, k: nat)
    requires len <= src.Length
    ensures var t := Accumulate(len, len, chunk, k0, 0);
      ok == t.ok && sent == src[..t.count] && k == t.calls
  {
    var i := 0;
    k := k0;
    sent := [];
    ok := true;
    while i < len
      invariant i <= len
      invariant Accumulate(len, len, chunk, k, i) == Accumulate(len, len, chunk, k0, 0)
      invariant sent == src[..i]
      decreases len - i
    {
      var value := Returned(Call(chunk, k), len - i, len - i);
      AccumulateStep(len, len, chunk, k, i, value);
      k := k + 1;
      if value <= 0 {
        ok := false;
        break;
      }
      assert src[..i + value] == src[..i] + src[i..i + value];
      sent := sent + src[i..i + value];
      i := i + value;
    }
  }

  /** send_packet: lay out htonl(op) and the info byte in a local buffer,
      append the block when op is a block write, and nwrite the header (and
      block).  What goes out is a prefix of the encoded request, all of it
      exactly when the send succeeds.  The write test reads the command
      field of the network-order word, as the source does. */
  method SendPacket(op: bv32, block: array?<byte>, host: Endian, chunk: seq<int>, k0: nat)
    returns (ok: bool, sent: seq<byte>, k: nat)
    requires WriteTestAsWritten(op, host) ==> block != null && block.Length >= BLOCK_SIZE
    ensures var wire := Wire(op, host, if WriteTestAsWritten(op, host) then block[..] else []);
      var t := Accumulate(|wire|, |wire|, chunk, k0, 0);
      ok == t.ok && sent == wire[..t.count] && k == t.calls
  {
    var buffer := new byte[HEADER_LEN + BLOCK_SIZE];
    var offset := 0;
    var newopcode := HostToNet(op, host);
    Copy(buffer, offset, HostBytes(newopcode, host));
    WireOrder(op, host);
    offset := offset + 4;
    if CommandField(newopcode) == WRITE_BLOCK {
      buffer[offset] := 2;
      Copy(buffer, HEADER_LEN, block[..BLOCK_SIZE]);
      offset := offset + BLOCK_SIZE;
      assert buffer[..] == Encode(Request(op, true, block[..]));
      ok, sent, k := NWrite(HEADER_LEN + BLOCK_SIZE, buffer, chunk, k0);
    } else {
      buffer[offset] := 0;
      assert buffer[..HEADER_LEN] == Encode(Request(op, false, []));
      ok, sent, k := NWrite(HEADER_LEN, buffer, chunk, k0);
    }
  }

  /** recv_packet: nread the header, decode the op with ntohl and the info
      byte, and nread 256 bytes into block iff info bit 1 is set.  Returns
      the decoded fields, how many stream bytes were read and the next call. */
  method RecvPacket(block: array?<byte>, host: Endian, stream: seq<byte>, chunk: seq<int>, k0: nat)
    returns (ok: bool, op: bv32, ret: byte, used: nat, k: nat)
    requires block != null ==> block.Length >= BLOCK_SIZE
    requires block == null && HEADER_LEN <= |stream| ==> stream[4] & 2 == 0
    modifies block
    ensures var r := Receive(stream, chunk, k0);
      && ok == r.ok && used == r.used && k == r.calls
      && (r.used >= HEADER_LEN ==> op == r.op && ret == r.info)
      && (block != null ==> block[..] == r.payload + old(block[|r.payload|..]))
  {
    op, ret := 0, 0;
    AccumulateOutcome(HEADER_LEN, |stream|, chunk, k0, 0);
    var header := new byte[HEADER_LEN];
    var offset := 0;
    ok, used, k := NRead(HEADER_LEN, header, stream, 0, chunk, k0);
    if ok {
      assert header[..4] == stream[..4];
      var word := FromHostBytes(header[offset..offset + 4], host);
      offset := offset + 4;
      op := HostToNet(word, host);
      ReadOrder(header[..4], host);
      ret := header[offset];
      offset := offset + 1;
      if ret & 2 != 0 {
        AccumulateOutcome(BLOCK_SIZE, |stream| - HEADER_LEN, chunk, k, 0);
        ok, used, k := NRead(BLOCK_SIZE, block, stream, HEADER_LEN, chunk, k);
      }
    }
  }

  // ---------------------------------------------------------------------
  // The client

  /** The connection state of net.c: the socket descriptor cli_sd and, in
      place of the socket, the bytes the server has sent (of which
      `consumed` have been read), the bytes sent so far, and the scripts of
      read() and write() results with the index of their next call. */
  class Client {
    var sd: int
    const inbox: seq<byte>
    var consumed: nat
    var outbox: seq<byte>
    const readChunk: seq<int>
    const writeChunk: seq<int>
    var readCalls: nat
    var writeCalls: nat

    ghost predicate Valid()
      reads this
    {
      consumed <= |inbox|
    }

    constructor (inbox: seq<byte>, readChunk: seq<int>, writeChunk: seq<int>)
      ensures Valid() && sd == -1 && this.inbox == inbox && consumed == 0 && outbox == []
      ensures this.readChunk == readChunk && this.writeChunk == writeChunk
      ensures readCalls == 0 && writeCalls == 0
    {
      sd := -1;
      this.inbox := inbox;
      consumed := 0;
      outbox := [];
      this.readChunk := readChunk;
      this.writeChunk := writeChunk;
      readCalls, writeCalls := 0, 0;
    }

    /** jbod_connect: `socketFd` is what socket() returned, `addressOk` and
        `connectOk` whether inet_aton and connect succeeded.  cli_sd keeps
        the descriptor even when a later step fails. */
    method Connect(socketFd: int, addressOk: bool, connectOk: bool) returns (ok: bool)
      modifies this
      ensures sd == socketFd
      ensures ok <==> socketFd != -1 && addressOk && connectOk
      ensures consumed == old(consumed) && outbox == old(outbox)
      ensures readCalls == old(readCalls) && writeCalls == old(writeCalls)
    {
      sd := socketFd;
      if sd == -1 {
        return false;
      }
      if !addressOk {
        return false;
      }
      if !connectOk {
        return false;
      }
      return true;
    }

    /** jbod_disconnect: cli_sd is reset, so every later operation fails
        until a new connect. */
    method Disconnect()
      modifies this
      ensures sd == -1
      ensures consumed == old(consumed) && outbox == old(outbox)
      ensures readCalls == old(readCalls) && writeCalls == old(writeCalls)
    {
      sd := -1;
    }

    /** jbod_client_operation: fail without a connection; otherwise send the
        request, receive the reply, and succeed only when the info byte is
        even and the reply echoes the operation. */
    method Operation(op: bv32, block: array?<byte>, host: Endian) returns (r: int)
      requires Valid()
      requires block != null ==> block.Length >= BLOCK_SIZE
      requires WriteTestAsWritten(op, host) ==> block != null
      requires block == null && consumed + HEADER_LEN <= |inbox| ==> inbox[consumed + 4] & 2 == 0
      modifies this, block
      ensures Valid() && sd == old(sd)
      ensures r == 0 || r == -1
      ensures old(sd) == -1 ==>
        && r == -1 && consumed == old(consumed) && outbox == old(outbox)
        && readCalls == old(readCalls) && writeCalls == old(writeCalls)
      ensures var wire := Wire(op, host, if WriteTestAsWritten(op, host) then old(block[..]) else []);
        var s := Accumulate(|wire|, |wire|, writeChunk, old(writeCalls), 0);
        var rcv := Receive(inbox[old(consumed)..], readChunk, old(readCalls));
        && (r == 0 <==> old(sd) != -1 && s.ok && rcv.ok && rcv.info % 2 == 0 && rcv.op == op)
        && (old(sd) != -1 ==> outbox == old(outbox) + wire[..s.count] && writeCalls == s.calls)
        && (old(sd) != -1 && s.ok ==>
              && consumed == old(consumed) + rcv.used && readCalls == rcv.calls
              && (block != null ==> block[..] == rcv.payload + old(block[|rcv.payload|..])))
        && (old(sd) == -1 || !s.ok ==>
              && consumed == old(consumed) && readCalls == old(readCalls)
              && (block != null ==> block[..] == old(block[..])))
    {
      var infocode: byte := 0;
      var holderop := op;
      if sd == -1 {
        return -1;
      }
      var sent, sentBytes, wk := SendPacket(op, block, host, writeChunk, writeCalls);
      outbox, writeCalls := outbox + sentBytes, wk;
      if !sent {
        return -1;
      }
      var received, echoed, info, used, rk := RecvPacket(block, host, inbox[consumed..], readChunk, readCalls);
      consumed, readCalls := consumed + used, rk;
      if !received {
        return -1;
      }
      infocode := info;
      if infocode % 2 != 0 {
        return -1;
      }
      if echoed != holderop {
        return -1;
      }
      return 0;
    }
  }
}
