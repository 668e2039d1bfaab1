/** The TCP block receiver: apolloParsePacket with its two branches that touch the block buffer, an
    uploaded packet (HDR_BLOCK_DATA_RECV) and a download request (HDR_BLOCK_DATA_SEND). */
module BlockReceive {
  import opened Bytes
  import opened Packetiser
  import opened BlockFormat
  import HexText

  const HDR_BLOCK_DATA_SEND: Byte := 0x44
  const LEN_DEVICE_DOWNLOAD := 16

  datatype Block = Block(buffer: Buffer, packet: seq<Byte>, index: nat) {
    predicate Valid() {
      |packet| == PACKET && index <= PACKET
    }
  }

  /** A finished upload: the file written and the replication request started for it. */
  datatype Saved = Saved(file: File, device: string, flag: Byte)

  /** An answered download request: the file read, and what was sent, one entry per call. */
  datatype Download = Download(path: Path, sent: seq<seq<Byte>>)

  /** The files a connection's downloads find: the one at a path, for the first download, the second, ... */
  type Disk = (nat, Path) -> Stored

  /** server.c zeroes the whole block state of a new connection. */
  const FRESH := Block(Zeros(BUFFER), Zeros(PACKET), 0)

  /** blockIndex is unsigned, so a negative right-hand side compares as a huge number. */
  predicate Complete(index: nat, f: Frame) {
    0 <= DataLength(f) + HEADER <= index
  }

  function SaveOf(buffer: Buffer, f: Frame): Saved {
    var device := HexText.Text(SenderId(f));
    Saved(File(BlockPath(device), FileContent(buffer, f)), device, MULTICAST_TYPE_AGPS)
  }

  /** The packet buffer after evbuffer_remove has put `bytes` at the index. */
  function NextFrame(b: Block, bytes: seq<Byte>): (f: Frame)
    requires b.Valid() && 0 < |bytes| <= PACKET - b.index
    ensures |f| == PACKET
  {
    b.packet[..b.index] + bytes + b.packet[b.index + |bytes|..]
  }

  /** One successful evbuffer_remove of `bytes` followed by one pass of the switch, downloads apart. */
  function Read(b: Block, bytes: seq<Byte>): (r: (Block, seq<Saved>))
    requires b.Valid() && 0 < |bytes| <= PACKET - b.index
    ensures r.0.Valid()
  {
    var packet := NextFrame(b, bytes);
    if packet[0] != HDR_BLOCK_DATA_RECV then
      (b.(packet := packet), [])
    else if b.index + |bytes| == PACKET && !IsLast(packet) then
      (Block(Place(b.buffer, packet), Zeros(PACKET), 0), [])
    else
      var index := b.index + |bytes|;
      if IsLast(packet) && Complete(index, packet) then
        var buffer := Place(b.buffer, packet);
        (Block(buffer, packet, index), [SaveOf(buffer, packet)])
      else
        (Block(b.buffer, packet, index), [])
  }

  /** A download request of the right length. */
  predicate IsDownload(f: Frame, nbytes: nat) {
    f[0] == HDR_BLOCK_DATA_SEND && nbytes == LEN_DEVICE_DOWNLOAD
  }

  /** The file a download request names. */
  function PathAsked(f: Frame): Path {
    var device := HexText.Text(SenderId(f));
    if f[13] == 0x61 then AgpsPath(device) else BlockPath(device)
  }

  /** takeDataPacket has written the packets of a file over the front of the block buffer. */
  function Overlay(buffer: Buffer, id: DeviceId, file: Stored): Buffer {
    StreamLength(id, 0, file);
    Stream(id, 0, file) + buffer[|Stream(id, 0, file)|..]
  }

  /** A connection: the block state, the bytes libevent still holds, the uploads saved and the downloads
      answered so far. */
  datatype Connection = Connection(block: Block, input: seq<Byte>, saved: seq<Saved>, downloads: seq<Download>)

  const NEW_CONNECTION := Connection(FRESH, [], [], [])

  /** How many bytes the next evbuffer_remove brings. */
  function Nbytes(c: Connection): (n: nat)
    requires c.block.Valid()
    ensures n <= |c.input| && n <= PACKET - c.block.index
  {
    Min(|c.input|, PACKET - c.block.index)
  }

  /** One pass of the while loop. */
  function Pass(disk: Disk, c: Connection): (r: Connection)
    requires c.block.Valid() && Nbytes(c) > 0
    ensures r.block.Valid() && |r.input| < |c.input|
  {
    var n := Nbytes(c);
    var f, rest := NextFrame(c.block, c.input[..n]), c.input[n..];
    if IsDownload(f, n) then
      var id, file := SenderId(f), disk(|c.downloads|, PathAsked(f));
      Connection(Block(Overlay(c.block.buffer, id, file), f, c.block.index), rest, c.saved,
                 c.downloads + [Download(PathAsked(f), Packets(id, 0, file))])
    else
      var (block, saved) := Read(c.block, c.input[..n]);
      Connection(block, rest, c.saved + saved, c.downloads)
  }

  /** The while loop of one callback: read until evbuffer_remove returns nothing. */
  function Drain(disk: Disk, c: Connection): (r: Connection)
    requires c.block.Valid()
    ensures r.block.Valid()
    decreases |c.input|
  {
    if Nbytes(c) == 0 then c else Drain(disk, Pass(disk, c))
  }

  /** `chunk` arrives and the read callback runs. */
  function Callback(disk: Disk, c: Connection, chunk: seq<Byte>): (r: Connection)
    requires c.block.Valid()
    ensures r.block.Valid()
  {
    Drain(disk, c.(input := c.input + chunk))
  }

  function Serve(disk: Disk, c: Connection, chunks: seq<seq<Byte>>): (r: Connection)
    requires c.block.Valid()
    ensures r.block.Valid()
  {
    if chunks == [] then c else Callback(disk, Serve(disk, c, chunks[..|chunks| - 1]), chunks[|chunks| - 1])
  }

  lemma {:induction false} ServeJoin(disk: Disk, c: Connection, first: seq<seq<Byte>>, more: seq<seq<Byte>>)
    requires c.block.Valid()
    ensures Serve(disk, c, first + more) == Serve(disk, Serve(disk, c, first), more)
    decreases |more|
  {
    hide Drain;
    if more == [] {
      assert first + more == first;
    } else {
      var front := more[..|more| - 1];
      ServeJoin(disk, c, first, front);
      assert (first + more)[..|first + more| - 1] == first + front;
    }
  }

  // ---------- One read, byte by byte ----------

  /** The block buffer after the payload of packet i, n bytes of it from byte 32 of the frame, has been copied. */
  function Copied(buffer: Buffer, f: Frame, i: int, n: int): Buffer {
    seq(32768, p requires 0 <= p < 32768 =>
      if 992 * i <= p < 992 * i + n && 32 + p - 992 * i < |f| then f[32 + p - 992 * i] else buffer[p])
  }

  lemma CopiedIsPlaced(buffer: Buffer, f: Frame)
    ensures Place(buffer, f) == Copied(buffer, f, Signed(f[13]), Signed(f[30]) * 256 + f[31])
  {
  }

  /** What a block packet does whose first read brings its header, for every value of its fields: 13 its number,
      29 the packet count, 30 and 31 the length, 1 to 8 the device. A full packet before the last is placed and
      the next one awaited; a complete last one is placed and the file saved; any other waits for more. */
  lemma PacketRead(b: Block, d: seq<Byte>)
    requires b.Valid() && b.index == 0 && 32 <= |d| <= 1024 && d[0] == 0x56
    ensures var i, n := Signed(d[13]), Signed(d[30]) * 256 + d[31];
      var last, complete := i + 1 == Signed(d[29]), 0 <= n + 32 <= |d|;
      var f: Frame := d + b.packet[|d|..];
      var placed, device := Copied(b.buffer, f, i, n), HexText.Text(d[1..9]);
      var (after, saved) := Read(b, d);
      && after == (if !last && |d| == 1024 then Block(placed, Zeros(1024), 0)
                   else Block(if last && complete then placed else b.buffer, f, |d|))
      && |saved| == (if last && complete then 1 else 0)
      && (saved != [] ==>
            && saved[0].file.path.Name() == "/usr/RServer/block_data/" + device
            && (0 <= 992 * i + n <= 32768 ==> saved[0].file.content == placed[..992 * i + n])
            && saved[0].device == device && saved[0].flag == 0x32)
  {
    var f := NextFrame(b, d);
    assert f == d + b.packet[|d|..];
    assert SenderId(f) == d[1..9];
    CopiedIsPlaced(b.buffer, f);
    hide Place, Copied, HexText.Text;
  }

  // ---------- One transfer ----------

  /** The upload that `blob` sent by `id` should produce. */
  function Upload(id: DeviceId, blob: Blob): Saved {
    var device := HexText.Text(id);
    Saved(File(BlockPath(device), blob), device, 0x32)
  }

  /** Where a transfer begins, or goes on after other packets: whatever these have left in the block and
      packet buffers, and the number of the next packet. */
  datatype Start = Start(buffer: Buffer, packet: seq<Byte>, first: nat)

  const CLEAN := Start(Zeros(BUFFER), Zeros(PACKET), 0)

  /** The blocks before the next packet are in the block buffer. */
  predicate Ready(st: Start, blob: Blob) {
    |st.packet| == PACKET && st.first < Total(|blob|) && blob[..st.first * DATA] <= st.buffer
  }

  /** What the packet buffer holds when packet k begins. */
  function Held(st: Start, k: nat): seq<Byte> {
    if k == st.first then st.packet else Zeros(PACKET)
  }

  /** The block state when packets before k are placed and m bytes of packet k have been read. */
  function During(st: Start, id: DeviceId, flag: Byte, blob: Blob, k: nat, m: nat): (b: Block)
    requires Ready(st, blob) && k < Total(|blob|) && m < |Packet(id, flag, blob, k)|
    ensures b.Valid()
  {
    Block(blob[..k * DATA] + st.buffer[k * DATA..], Packet(id, flag, blob, k)[..m] + Held(st, k)[m..], m)
  }

  /** The block state after the whole stream: the last packet stays in the packet buffer. */
  function Done(st: Start, id: DeviceId, flag: Byte, blob: Blob): (b: Block)
    requires Ready(st, blob)
    ensures b.Valid()
  {
    var k := Total(|blob|) - 1;
    var last := Packet(id, flag, blob, k);
    Block(blob + st.buffer[|blob|..], last + Held(st, k)[|last|..], |last|)
  }

  /** The block state after the first c bytes of the stream. */
  function After(st: Start, id: DeviceId, flag: Byte, blob: Blob, c: nat): (b: Block)
    requires Ready(st, blob) && c <= |Stream(id, flag, blob)|
    ensures b.Valid()
  {
    StreamLength(id, flag, blob);
    if c == |Stream(id, flag, blob)| then Done(st, id, flag, blob)
    else
      PacketAt(id, flag, blob, c / PACKET);
      During(st, id, flag, blob, c / PACKET, c % PACKET)
  }

  /** The m bytes of packet k read so far, together with what an earlier packet left in the header fields,
      look like a complete last packet: the data length is read as m - HEADER or less. */
  predicate Early(left: seq<Byte>, k: nat, total: nat, m: nat)
    requires |left| == PACKET
  {
    && 0 < m < 31
    && left[IDX_LENGTH] == 0xFF && 0xE0 <= left[IDX_LENGTH + 1] <= 0xE0 + m
    && (if m > IDX_INDEX then k else Signed(left[IDX_INDEX])) + 1 ==
       (if m > IDX_TOTAL then total else Signed(left[IDX_TOTAL]))
  }

  /** What a partly received packet shows: the save condition holds exactly when it is the last packet and
      complete, or early; and once its header is there it looks last exactly when it is. */
  lemma PartialPacket(id: DeviceId, flag: Byte, blob: Blob, k: nat, m: nat, left: seq<Byte>)
    requires k < Total(|blob|) && 0 < m <= |Packet(id, flag, blob, k)| && |left| == PACKET
    ensures var full := Packet(id, flag, blob, k);
      var seen := full[..m] + left[m..];
      && seen[0] == HDR_BLOCK_DATA_RECV
      && (IsLast(seen) && Complete(m, seen) <==>
            (k + 1 == Total(|blob|) && m == |full|) || Early(left, k, Total(|blob|), m))
      && (m >= HEADER ==> (IsLast(seen) <==> k + 1 == Total(|blob|)))
      && (m < HEADER && Complete(m, seen) ==> DataLength(seen) <= 0)
  {
    var full := Packet(id, flag, blob, k);
    var seen := full[..m] + left[m..];
    HeaderFields(id, flag, blob, k);
    if m < HEADER {
      assert seen[IDX_LENGTH + 1] == left[IDX_LENGTH + 1];
      assert seen[IDX_LENGTH] == if m > IDX_LENGTH then full[IDX_LENGTH] else left[IDX_LENGTH];
      assert PktIndex(seen) == if m > IDX_INDEX then k else Signed(left[IDX_INDEX]);
      assert PktTotal(seen) == if m > IDX_TOTAL then Total(|blob|) else Signed(left[IDX_TOTAL]);
    } else {
      assert PktIndex(seen) == k && PktTotal(seen) == Total(|blob|);
      assert DataLength(seen) == PayloadLength(|blob|, k);
    }
  }

  lemma PlaceNothing(buffer: Buffer, f: Frame)
    requires DataLength(f) <= 0
    ensures Place(buffer, f) == buffer
  {
  }

  /** A complete packet, whatever follows it, places exactly its own block of the file. */
  lemma PlacePacket(buffer: Buffer, id: DeviceId, flag: Byte, blob: Blob, k: nat, frame: Frame)
    requires k < Total(|blob|)
    requires Packet(id, flag, blob, k) <= frame
    ensures var next := k * DATA + PayloadLength(|blob|, k);
      && Place(blob[..k * DATA] + buffer[k * DATA..], frame) == blob[..next] + buffer[next..]
      && Base(frame) + DataLength(frame) == next
      && SenderId(frame) == id
  {
    var full, done := Packet(id, flag, blob, k), k * DATA;
    HeaderFields(id, flag, blob, k);
    var n := PayloadLength(|blob|, k);
    assert forall i :: 0 <= i < |full| ==> frame[i] == full[i];
    assert PktIndex(frame) == k && DataLength(frame) == n;
    forall p | done <= p < done + n ensures frame[HEADER + p - done] == blob[p] {
      assert full[HEADER..][p - done] == blob[p];
    }
  }

  /** The saves of a read that ends at byte c of the stream: the upload at its end, and one too many when
      the packet is early. */
  function SavesAt(st: Start, id: DeviceId, flag: Byte, blob: Blob, c: nat): seq<Saved>
    requires Ready(st, blob)
  {
    if c == |Stream(id, flag, blob)| then [Upload(id, blob)] else EarlySaves(st, id, flag, blob, c)
  }

  function EarlySaves(st: Start, id: DeviceId, flag: Byte, blob: Blob, c: nat): seq<Saved>
    requires Ready(st, blob)
  {
    var m := c - st.first * PACKET;
    if m > 0 && Early(st.packet, st.first, Total(|blob|), m) then
      [SaveOf(st.buffer, Packet(id, flag, blob, st.first)[..m] + st.packet[m..])]
    else []
  }

  lemma SeenFrame(st: Start, id: DeviceId, flag: Byte, blob: Blob, k: nat, m: nat, n: nat)
    requires Ready(st, blob) && k < Total(|blob|) && 0 < n && m + n <= |Packet(id, flag, blob, k)|
    ensures var full := Packet(id, flag, blob, k);
      NextFrame(During(st, id, flag, blob, k, m), full[m..m + n]) == full[..m + n] + Held(st, k)[m + n..]
  {
  }

  lemma NotEarly(k: nat, total: nat, m: nat)
    ensures !Early(Zeros(PACKET), k, total, m)
  {
  }

  /** A read that leaves room in the packet buffer. */
  lemma ReadShort(b: Block, bytes: seq<Byte>)
    requires b.Valid() && 0 < |bytes| < PACKET - b.index && NextFrame(b, bytes)[0] == HDR_BLOCK_DATA_RECV
    ensures var f, n := NextFrame(b, bytes), b.index + |bytes|;
      Read(b, bytes) == if IsLast(f) && Complete(n, f) then
                          (Block(Place(b.buffer, f), f, n), [SaveOf(Place(b.buffer, f), f)])
                        else (Block(b.buffer, f, n), [])
  {
  }

  /** A read that leaves packet k incomplete only lengthens it, but for an early save. */
  lemma ReadMore(st: Start, id: DeviceId, flag: Byte, blob: Blob, k: nat, m: nat, n: nat)
    requires Ready(st, blob) && st.first <= k < Total(|blob|) && 0 < n && m + n < |Packet(id, flag, blob, k)|
    ensures Read(During(st, id, flag, blob, k, m), Packet(id, flag, blob, k)[m..m + n]) ==
            (During(st, id, flag, blob, k, m + n), EarlySaves(st, id, flag, blob, k * PACKET + m + n))
  {
    hide Read, Place, SaveOf, IsLast, Complete, Packet, NextFrame, Early, Zeros, DataLength;
    var full, left := Packet(id, flag, blob, k), Held(st, k);
    var b, seen: Frame := During(st, id, flag, blob, k, m), full[..m + n] + left[m + n..];
    SeenFrame(st, id, flag, blob, k, m, n);
    PartialPacket(id, flag, blob, k, m + n, left);
    NotEarly(k, Total(|blob|), m + n);
    ReadShort(b, full[m..m + n]);
    EarlyShort(st.packet, st.first, Total(|blob|), k * PACKET + m + n - st.first * PACKET);
    if k == st.first {
      assert b.buffer == st.buffer;
      if IsLast(seen) && Complete(m + n, seen) {
        PlaceNothing(b.buffer, seen);
      }
    } else {
      assert (k - st.first) * PACKET >= PACKET;
    }
  }

  lemma EarlyShort(left: seq<Byte>, k: nat, total: nat, m: int)
    requires |left| == PACKET
    ensures m >= HEADER ==> !Early(left, k, total, m)
    ensures m >= 0 && Early(left, k, total, m) ==> 0 < m < HEADER && left[IDX_LENGTH + 1] >= 0xE0
  {
  }

  /** A read that completes a packet before the last places it and starts the next. */
  lemma ReadMiddle(st: Start, id: DeviceId, flag: Byte, blob: Blob, k: nat, m: nat)
    requires Ready(st, blob) && st.first <= k && k + 1 < Total(|blob|) && m < PACKET
    ensures Read(During(st, id, flag, blob, k, m), Packet(id, flag, blob, k)[m..]) ==
            (During(st, id, flag, blob, k + 1, 0), [])
  {
    var full := Packet(id, flag, blob, k);
    SeenFrame(st, id, flag, blob, k, m, PACKET - m);
    assert full[m..m + (PACKET - m)] == full[m..];
    assert full[..PACKET] + Held(st, k)[PACKET..] == full;
    PartialPacket(id, flag, blob, k, PACKET, Held(st, k));
    PlacePacket(st.buffer, id, flag, blob, k, full);
    assert Packet(id, flag, blob, k + 1)[..0] + Zeros(PACKET)[0..] == Zeros(PACKET);
  }

  /** A read that makes the frame last and complete. */
  lemma ReadFinal(b: Block, bytes: seq<Byte>)
    requires b.Valid() && 0 < |bytes| <= PACKET - b.index
    requires var f := NextFrame(b, bytes);
      f[0] == HDR_BLOCK_DATA_RECV && IsLast(f) && Complete(b.index + |bytes|, f)
    ensures var f := NextFrame(b, bytes);
      var placed := Place(b.buffer, f);
      Read(b, bytes) == (Block(placed, f, b.index + |bytes|), [SaveOf(placed, f)])
  {
  }

  /** A read that completes the last packet saves the file. */
  lemma ReadLast(st: Start, id: DeviceId, flag: Byte, blob: Blob, m: nat)
    requires Ready(st, blob) && m < |Packet(id, flag, blob, Total(|blob|) - 1)|
    ensures var k := Total(|blob|) - 1;
      Read(During(st, id, flag, blob, k, m), Packet(id, flag, blob, k)[m..]) ==
      (Done(st, id, flag, blob), [Upload(id, blob)])
  {
    hide Read, Place, SaveOf, Upload, IsLast, Complete, NextFrame, Packet;
    var k := Total(|blob|) - 1;
    var full := Packet(id, flag, blob, k);
    SeenFrame(st, id, flag, blob, k, m, |full| - m);
    assert full[m..m + (|full| - m)] == full[m..] && full[..|full|] == full;
    PartialPacket(id, flag, blob, k, |full|, Held(st, k));
    SaveLast(st, id, flag, blob);
    ReadFinal(During(st, id, flag, blob, k, m), full[m..]);
  }

  /** Placing the last packet completes the file, and the save takes exactly the file. */
  lemma SaveLast(st: Start, id: DeviceId, flag: Byte, blob: Blob)
    requires Ready(st, blob)
    ensures var k := Total(|blob|) - 1;
      var full := Packet(id, flag, blob, k);
      var frame: Frame := full + Held(st, k)[|full|..];
      var placed := Place(blob[..k * DATA] + st.buffer[k * DATA..], frame);
      placed == blob + st.buffer[|blob|..] && SaveOf(placed, frame) == Upload(id, blob)
  {
    var k := Total(|blob|) - 1;
    var full := Packet(id, flag, blob, k);
    var frame: Frame := full + Held(st, k)[|full|..];
    PlacePacket(st.buffer, id, flag, blob, k, frame);
    hide Place, Packet, Base, DataLength, SenderId;
    assert blob[..|blob|] == blob;
    assert (blob + st.buffer[|blob|..])[..|blob|] == blob;
  }

  /** Bytes m to m + n of packet k, as they lie in the stream. */
  lemma StreamSlice(id: DeviceId, flag: Byte, blob: Blob, c: nat, n: nat)
    requires 0 < n && c + n <= |Stream(id, flag, blob)| && c % PACKET + n <= PACKET
    ensures c / PACKET < Total(|blob|)
    ensures var full, m := Packet(id, flag, blob, c / PACKET), c % PACKET;
      && m + n <= |full|
      && Stream(id, flag, blob)[c..c + n] == full[m..m + n]
      && (m + n == |full| ==> full[m..m + n] == full[m..])
      && (c + n == |Stream(id, flag, blob)| <==> c / PACKET + 1 == Total(|blob|) && m + n == |full|)
  {
    var s := Stream(id, flag, blob);
    StreamLength(id, flag, blob);
    var k, m := c / PACKET, c % PACKET;
    PacketAt(id, flag, blob, k);
    SubSlice(s, k * PACKET, k * PACKET + |Packet(id, flag, blob, k)|, m, m + n);
  }

  /** The three kinds of read, by position in the stream. */
  lemma TransferMore(st: Start, id: DeviceId, flag: Byte, blob: Blob, c: nat, n: nat)
    requires Ready(st, blob) && st.first * PACKET <= c
    requires 0 < n && c + n < |Stream(id, flag, blob)| && c % PACKET + n < PACKET
    ensures Read(After(st, id, flag, blob, c), Stream(id, flag, blob)[c..c + n]) ==
            (After(st, id, flag, blob, c + n), SavesAt(st, id, flag, blob, c + n))
  {
    hide Read, Packet, After, During, Done, EarlySaves;
    StreamSlice(id, flag, blob, c, n);
    AfterMore(st, id, flag, blob, c / PACKET, c % PACKET);
    AfterMore(st, id, flag, blob, c / PACKET, c % PACKET + n);
    ReadMore(st, id, flag, blob, c / PACKET, c % PACKET, n);
  }

  lemma TransferMiddle(st: Start, id: DeviceId, flag: Byte, blob: Blob, c: nat, n: nat)
    requires Ready(st, blob) && st.first * PACKET <= c
    requires 0 < n && c + n < |Stream(id, flag, blob)| && c % PACKET + n == PACKET
    ensures Read(After(st, id, flag, blob, c), Stream(id, flag, blob)[c..c + n]) ==
            (After(st, id, flag, blob, c + n), SavesAt(st, id, flag, blob, c + n))
  {
    hide Read, Packet, After, During, Done, SaveOf;
    StreamSlice(id, flag, blob, c, n);
    AfterMore(st, id, flag, blob, c / PACKET, c % PACKET);
    AfterMore(st, id, flag, blob, c / PACKET + 1, 0);
    ReadMiddle(st, id, flag, blob, c / PACKET, c % PACKET);
    assert c + n - st.first * PACKET >= PACKET;
  }

  lemma TransferLast(st: Start, id: DeviceId, flag: Byte, blob: Blob, c: nat, n: nat)
    requires Ready(st, blob)
    requires 0 < n && c + n == |Stream(id, flag, blob)| && c % PACKET + n <= PACKET
    ensures Read(After(st, id, flag, blob, c), Stream(id, flag, blob)[c..c + n]) ==
            (After(st, id, flag, blob, c + n), [Upload(id, blob)])
  {
    hide Read, Packet, During, Done;
    StreamSlice(id, flag, blob, c, n);
    AfterMore(st, id, flag, blob, c / PACKET, c % PACKET);
    ReadLast(st, id, flag, blob, c % PACKET);
  }

  /** One read inside a transfer: the next state is the state after that many more bytes, and the file is
      saved, whole, exactly when the read brings the final byte, but for early saves. */
  lemma TransferRead(st: Start, id: DeviceId, flag: Byte, blob: Blob, c: nat, n: nat)
    requires Ready(st, blob) && st.first * PACKET <= c && 0 < n && c + n <= |Stream(id, flag, blob)|
    requires n <= PACKET - After(st, id, flag, blob, c).index
    ensures Read(After(st, id, flag, blob, c), Stream(id, flag, blob)[c..c + n]) ==
            (After(st, id, flag, blob, c + n), SavesAt(st, id, flag, blob, c + n))
  {
    hide EarlySaves;
    AfterIndex(st, id, flag, blob, c);
    if c + n == |Stream(id, flag, blob)| {
      TransferLast(st, id, flag, blob, c, n);
    } else if c % PACKET + n < PACKET {
      TransferMore(st, id, flag, blob, c, n);
    } else {
      TransferMiddle(st, id, flag, blob, c, n);
    }
  }

  lemma AfterMore(st: Start, id: DeviceId, flag: Byte, blob: Blob, k: nat, m: nat)
    requires Ready(st, blob) && k < Total(|blob|) && m < |Packet(id, flag, blob, k)|
    ensures k * PACKET + m < |Stream(id, flag, blob)|
    ensures After(st, id, flag, blob, k * PACKET + m) == During(st, id, flag, blob, k, m)
  {
    PacketAt(id, flag, blob, k);
    assert (k * PACKET + m) / PACKET == k && (k * PACKET + m) % PACKET == m;
  }

  lemma AfterIndex(st: Start, id: DeviceId, flag: Byte, blob: Blob, c: nat)
    requires Ready(st, blob) && c < |Stream(id, flag, blob)|
    ensures After(st, id, flag, blob, c).index == c % PACKET
  {
    StreamSlice(id, flag, blob, c, 1);
  }

  /** No pass inside a transfer is a download. */
  lemma TransferPass(disk: Disk, st: Start, id: DeviceId, flag: Byte, blob: Blob, c: nat, x: Connection)
    requires Ready(st, blob) && x.input != [] && c + |x.input| <= |Stream(id, flag, blob)|
    requires st.first * PACKET <= c && x.block == After(st, id, flag, blob, c)
    requires x.input == Stream(id, flag, blob)[c..c + |x.input|]
    ensures var n := Nbytes(x);
      && 0 < n && (n < |x.input| ==> (c + n) % PACKET == 0)
      && Pass(disk, x) == Connection(After(st, id, flag, blob, c + n), x.input[n..],
                                     x.saved + SavesAt(st, id, flag, blob, c + n), x.downloads)
  {
    hide Read, Upload, EarlySaves, NextFrame, After, Stream, Packets, Overlay;
    AfterIndex(st, id, flag, blob, c);
    var n, s := Nbytes(x), Stream(id, flag, blob);
    assert x.input[..n] == s[c..c + n];
    TransferRead(st, id, flag, blob, c, n);
    FrameIsBlock(st, id, flag, blob, c, n);
  }

  lemma FrameIsBlock(st: Start, id: DeviceId, flag: Byte, blob: Blob, c: nat, n: nat)
    requires Ready(st, blob) && 0 < n && c + n <= |Stream(id, flag, blob)| && c % PACKET + n <= PACKET
    ensures var b := After(st, id, flag, blob, c);
      && b.index == c % PACKET
      && NextFrame(b, Stream(id, flag, blob)[c..c + n])[0] == HDR_BLOCK_DATA_RECV
  {
    hide During, Packet;
    StreamSlice(id, flag, blob, c, n);
    AfterIndex(st, id, flag, blob, c);
    AfterMore(st, id, flag, blob, c / PACKET, c % PACKET);
    SeenFrame(st, id, flag, blob, c / PACKET, c % PACKET, n);
    PartialPacket(id, flag, blob, c / PACKET, c % PACKET + n, Held(st, c / PACKET));
  }

  /** One callback inside a transfer consumes all that has arrived; only where it ends can it save. */
  lemma {:induction false} TransferDrain(disk: Disk, st: Start, id: DeviceId, flag: Byte, blob: Blob, c: nat,
                                         x: Connection)
    requires Ready(st, blob) && c + |x.input| <= |Stream(id, flag, blob)|
    requires st.first * PACKET <= c && x.block == After(st, id, flag, blob, c)
    requires x.input == Stream(id, flag, blob)[c..c + |x.input|]
    ensures var end := c + |x.input|;
      Drain(disk, x) == Connection(After(st, id, flag, blob, end), [],
                                   x.saved + if x.input == [] then [] else SavesAt(st, id, flag, blob, end),
                                   x.downloads)
    decreases |x.input|
  {
    hide Pass, After, SavesAt;
    if x.input == [] {
      assert x.saved + [] == x.saved;
    } else {
      var s, n := Stream(id, flag, blob), Nbytes(x);
      TransferPass(disk, st, id, flag, blob, c, x);
      assert x.input[n..] == s[c + n..c + |x.input|];
      TransferDrain(disk, st, id, flag, blob, c + n, Pass(disk, x));
      if n < |x.input| {
        NoSavesBetween(st, id, flag, blob, c + n);
        assert x.saved + [] == x.saved;
      } else {
        assert x.saved + SavesAt(st, id, flag, blob, c + n) + [] == x.saved + SavesAt(st, id, flag, blob, c + n);
      }
    }
  }

  lemma NoSavesBetween(st: Start, id: DeviceId, flag: Byte, blob: Blob, c: nat)
    requires Ready(st, blob) && st.first * PACKET < c < |Stream(id, flag, blob)| && c % PACKET == 0
    ensures SavesAt(st, id, flag, blob, c) == []
  {
    assert c - st.first * PACKET >= PACKET;
  }

  lemma StartState(st: Start, id: DeviceId, flag: Byte, blob: Blob)
    requires Ready(st, blob)
    ensures st.first * PACKET < |Stream(id, flag, blob)|
    ensures After(st, id, flag, blob, st.first * PACKET) == Block(st.buffer, st.packet, 0)
  {
    hide After, Stream, Packet;
    AfterMore(st, id, flag, blob, st.first, 0);
    assert blob[..st.first * DATA] + st.buffer[st.first * DATA..] == st.buffer;
    assert Packet(id, flag, blob, st.first)[..0] + st.packet[0..] == st.packet;
  }

  /** The rest of the stream, from the next packet on. */
  function Rest(st: Start, id: DeviceId, flag: Byte, blob: Blob): seq<Byte>
    requires Ready(st, blob)
  {
    StartState(st, id, flag, blob);
    Stream(id, flag, blob)[st.first * PACKET..]
  }

  /** All that a transfer saves: only the end of an arrival can be the place of a save. */
  function AllSaves(st: Start, id: DeviceId, flag: Byte, blob: Blob, chunks: seq<seq<Byte>>): seq<Saved>
    requires Ready(st, blob)
  {
    if chunks == [] then []
    else
      var front, last := chunks[..|chunks| - 1], chunks[|chunks| - 1];
      AllSaves(st, id, flag, blob, front) +
      if last == [] then [] else SavesAt(st, id, flag, blob, st.first * PACKET + |Flatten(chunks)|)
  }

  /** However the stream is cut into arrivals, and whatever earlier packets have left in the buffers, the
      block state depends only on how much has arrived. */
  lemma {:induction false} TransferServe(disk: Disk, st: Start, id: DeviceId, flag: Byte, blob: Blob, x: Connection,
                                         chunks: seq<seq<Byte>>)
    requires Ready(st, blob) && x.block == Block(st.buffer, st.packet, 0) && x.input == []
    requires Flatten(chunks) <= Rest(st, id, flag, blob)
    ensures st.first * PACKET + |Flatten(chunks)| <= |Stream(id, flag, blob)|
    ensures Serve(disk, x, chunks) ==
            Connection(After(st, id, flag, blob, st.first * PACKET + |Flatten(chunks)|), [],
                       x.saved + AllSaves(st, id, flag, blob, chunks), x.downloads)
    decreases |chunks|
  {
    hide Drain, Packet, After, SavesAt, Stream, Rest, Flatten;
    StartState(st, id, flag, blob);
    if chunks == [] {
      assert x.saved + [] == x.saved && Flatten(chunks) == [] by { FlattenNone(chunks); }
    } else {
      var front, last := chunks[..|chunks| - 1], chunks[|chunks| - 1];
      NextArrival(st, id, flag, blob, chunks);
      TransferServe(disk, st, id, flag, blob, x, front);
      assert [] + last == last;
      TransferDrain(disk, st, id, flag, blob, st.first * PACKET + |Flatten(front)|,
                    Serve(disk, x, front).(input := last));
    }
  }

  lemma FlattenNone(chunks: seq<seq<Byte>>)
    requires chunks == []
    ensures Flatten(chunks) == []
  {
  }

  /** The last arrival, as it lies in the stream. */
  lemma NextArrival(st: Start, id: DeviceId, flag: Byte, blob: Blob, chunks: seq<seq<Byte>>)
    requires Ready(st, blob) && chunks != [] && Flatten(chunks) <= Rest(st, id, flag, blob)
    ensures var front, last, s := chunks[..|chunks| - 1], chunks[|chunks| - 1], Stream(id, flag, blob);
      var c := st.first * PACKET + |Flatten(front)|;
      && Flatten(front) <= Rest(st, id, flag, blob) && |Flatten(chunks)| == |Flatten(front)| + |last|
      && c + |last| <= |s| && last == s[c..c + |last|]
  {
    hide Stream, Flatten;
    StartState(st, id, flag, blob);
    FlattenLast(chunks);
    SecondPart(Flatten(chunks[..|chunks| - 1]), chunks[|chunks| - 1], Stream(id, flag, blob), st.first * PACKET);
  }

  /** No arrival ends where the packet is early. */
  predicate NeverEarly(left: seq<Byte>, k: nat, total: nat, chunks: seq<seq<Byte>>)
    requires |left| == PACKET
  {
    chunks != [] ==>
      && NeverEarly(left, k, total, chunks[..|chunks| - 1])
      && (chunks[|chunks| - 1] != [] ==> !Early(left, k, total, |Flatten(chunks)|))
  }

  /** The saves before the end of the stream are the early ones; there are none if no arrival ends early. */
  lemma {:induction false} SavesBefore(st: Start, id: DeviceId, flag: Byte, blob: Blob, chunks: seq<seq<Byte>>)
    requires Ready(st, blob) && |Flatten(chunks)| < |Rest(st, id, flag, blob)|
    ensures AllSaves(st, id, flag, blob, chunks) == [] <==> NeverEarly(st.packet, st.first, Total(|blob|), chunks)
    decreases |chunks|
  {
    hide Stream, SaveOf, Early, Packet, Upload;
    StartState(st, id, flag, blob);
    if chunks != [] {
      var front, last := chunks[..|chunks| - 1], chunks[|chunks| - 1];
      SavesBefore(st, id, flag, blob, front);
      assert last != [] ==> |Flatten(chunks)| > 0;
    }
  }

  /** When the stream is complete the file has been saved, last of all; and nothing else if and only if no
      arrival ended early. */
  lemma {:induction false} SavesInAll(st: Start, id: DeviceId, flag: Byte, blob: Blob, chunks: seq<seq<Byte>>)
    requires Ready(st, blob) && Flatten(chunks) == Rest(st, id, flag, blob)
    ensures var all := AllSaves(st, id, flag, blob, chunks);
      && all != [] && all[|all| - 1] == Upload(id, blob)
      && (all == [Upload(id, blob)] <==> NeverEarly(st.packet, st.first, Total(|blob|), chunks))
    decreases |chunks|
  {
    hide Stream, SaveOf, Early, Packet, Upload;
    StartState(st, id, flag, blob);
    var front, last := chunks[..|chunks| - 1], chunks[|chunks| - 1];
    var some := AllSaves(st, id, flag, blob, front);
    assert Flatten(chunks) == Flatten(front) + last;
    if last == [] {
      SavesInAll(st, id, flag, blob, front);
      assert AllSaves(st, id, flag, blob, chunks) == some;
    } else {
      SavesBefore(st, id, flag, blob, front);
      EndNotEarly(st, id, flag, blob);
      assert AllSaves(st, id, flag, blob, chunks) == some + [Upload(id, blob)];
    }
  }

  lemma EndNotEarly(st: Start, id: DeviceId, flag: Byte, blob: Blob)
    requires Ready(st, blob)
    ensures |Rest(st, id, flag, blob)| >= HEADER
    ensures !Early(st.packet, st.first, Total(|blob|), |Rest(st, id, flag, blob)|)
  {
    hide Stream;
    var k := Total(|blob|) - 1;
    PacketAt(id, flag, blob, k);
    StartState(st, id, flag, blob);
    assert (k - st.first) * PACKET >= 0;
  }

  /** Nothing is early unless an earlier packet has left a byte of at least 0xE0 where the low byte of the
      length comes. */
  lemma {:induction false} CleanNeverEarly(left: seq<Byte>, k: nat, total: nat, chunks: seq<seq<Byte>>)
    requires |left| == PACKET && left[IDX_LENGTH + 1] < 0xE0
    ensures NeverEarly(left, k, total, chunks)
    decreases |chunks|
  {
    if chunks != [] {
      CleanNeverEarly(left, k, total, chunks[..|chunks| - 1]);
    }
  }

  /** The upload round trip: a file packetised by any device and cut into any arrivals is saved exactly
      once, whole, under the sender's number, in the callback that receives the final byte: after any
      arrivals that are a beginning of its stream, the saves are that one or none, by whether the stream
      is complete. */
  lemma UploadSavedOnce(disk: Disk, id: DeviceId, flag: Byte, blob: Blob, chunks: seq<seq<Byte>>)
    requires blob != [] && Flatten(chunks) <= Stream(id, flag, blob)
    ensures Serve(disk, NEW_CONNECTION, chunks).saved ==
            if Flatten(chunks) == Stream(id, flag, blob) then [Upload(id, blob)] else []
  {
    hide Serve, Stream, AllSaves, Upload, NeverEarly;
    CleanIsReady(id, flag, blob);
    TransferServe(disk, CLEAN, id, flag, blob, NEW_CONNECTION, chunks);
    CleanNeverEarly(CLEAN.packet, 0, Total(|blob|), chunks);
    if Flatten(chunks) == Stream(id, flag, blob) {
      SavesInAll(CLEAN, id, flag, blob, chunks);
    } else {
      SavesBefore(CLEAN, id, flag, blob, chunks);
    }
  }

  lemma CleanIsReady(id: DeviceId, flag: Byte, blob: Blob)
    requires blob != []
    ensures Ready(CLEAN, blob) && Rest(CLEAN, id, flag, blob) == Stream(id, flag, blob)
  {
    hide Stream;
    assert blob[..0] == [];
  }

  // ---------- The same connection afterwards ----------

  /** The last packet of a saved upload is still in the packet buffer: the index was not reset. */
  predicate Stuck(b: Block, id: DeviceId, flag: Byte, blob: Blob) {
    && b.Valid() && blob != []
    && var last := Packet(id, flag, blob, Total(|blob|) - 1);
    && |last| <= b.index && last <= b.packet && blob <= b.buffer
  }

  function Repeat<T>(x: T, n: nat): (r: seq<T>)
    ensures |r| == n && forall i :: 0 <= i < n ==> r[i] == x
  {
    seq(n, _ => x)
  }

  lemma DoneIsStuck(st: Start, id: DeviceId, flag: Byte, blob: Blob)
    requires Ready(st, blob)
    ensures Stuck(Done(st, id, flag, blob), id, flag, blob)
    ensures Done(st, id, flag, blob).index == |Packet(id, flag, blob, Total(|blob|) - 1)|
  {
  }

  /** Any further read leaves the old packet in front of the frame, so it still looks last and complete. */
  lemma StuckFrame(b: Block, id: DeviceId, flag: Byte, blob: Blob, bytes: seq<Byte>)
    requires Stuck(b, id, flag, blob) && 0 < |bytes| <= PACKET - b.index
    ensures var frame := NextFrame(b, bytes);
      && Packet(id, flag, blob, Total(|blob|) - 1) <= frame
      && frame[0] == HDR_BLOCK_DATA_RECV && IsLast(frame) && Complete(b.index + |bytes|, frame)
  {
    var k := Total(|blob|) - 1;
    var last := Packet(id, flag, blob, k);
    var frame := NextFrame(b, bytes);
    assert forall i :: 0 <= i < |last| ==> frame[i] == b.packet[i] == last[i];
    HeaderFields(id, flag, blob, k);
  }

  lemma StuckSave(buffer: Buffer, frame: Frame, id: DeviceId, flag: Byte, blob: Blob)
    requires blob != [] && blob <= buffer && Packet(id, flag, blob, Total(|blob|) - 1) <= frame
    ensures blob <= Place(buffer, frame)
    ensures SaveOf(Place(buffer, frame), frame) == Upload(id, blob)
  {
    var k := Total(|blob|) - 1;
    PlacePacket(buffer, id, flag, blob, k, frame);
    hide Place, Packet, Base, DataLength, SenderId;
    assert blob[..k * DATA] + buffer[k * DATA..] == buffer;
    assert (blob + buffer[|blob|..])[..|blob|] == blob == blob[..|blob|];
  }

  /** Whatever is read next, the old file is saved again. */
  lemma StuckRead(b: Block, id: DeviceId, flag: Byte, blob: Blob, bytes: seq<Byte>)
    requires Stuck(b, id, flag, blob) && 0 < |bytes| <= PACKET - b.index
    ensures var r := Read(b, bytes);
      Stuck(r.0, id, flag, blob) && r.0.index == b.index + |bytes| && r.1 == [Upload(id, blob)]
  {
    hide SaveOf, Place, Upload, Packet, NextFrame;
    var frame := NextFrame(b, bytes);
    StuckFrame(b, id, flag, blob, bytes);
    StuckSave(b.buffer, frame, id, flag, blob);
  }

  /** All that has arrived has been read, as far as the packet buffer has room. */
  predicate ReadAll(c: Connection) {
    c.block.Valid() && (c.input == [] || c.block.index == PACKET)
  }

  lemma DrainDone(disk: Disk, c: Connection)
    requires ReadAll(c)
    ensures Drain(disk, c) == c
  {
  }

  lemma StuckCallback(disk: Disk, c: Connection, id: DeviceId, flag: Byte, blob: Blob, chunk: seq<Byte>)
    requires Stuck(c.block, id, flag, blob) && ReadAll(c)
    ensures var r := Callback(disk, c, chunk);
      && Stuck(r.block, id, flag, blob) && ReadAll(r)
      && r.block.index == Min(c.block.index + |chunk|, PACKET) && r.downloads == c.downloads
      && r.saved == c.saved + if chunk != [] && c.block.index < PACKET then [Upload(id, blob)] else []
  {
    hide Read, Upload, Packet, NextFrame;
    var x := c.(input := c.input + chunk);
    if c.block.index < PACKET && chunk != [] {
      assert x.input == chunk;
      StuckRead(c.block, id, flag, blob, chunk[..Nbytes(x)]);
      StuckFrame(c.block, id, flag, blob, chunk[..Nbytes(x)]);
      DrainDone(disk, Pass(disk, x));
    } else {
      assert chunk == [] ==> x.input == c.input;
      DrainDone(disk, x);
      assert c.saved + [] == c.saved;
    }
  }

  /** How many of the arrivals are not empty and find room left in the packet buffer. */
  function WithRoom(room: nat, chunks: seq<seq<Byte>>): nat {
    if chunks == [] then 0
    else
      var front, last := chunks[..|chunks| - 1], chunks[|chunks| - 1];
      WithRoom(room, front) + if last != [] && |Flatten(front)| < room then 1 else 0
  }

  /** After an upload the connection is useless for another: whatever arrives later, complete uploads of
      other files included, what is saved is the first file again, once for each arrival until the room
      left in the packet buffer is used up (so never, when the last packet was full). */
  lemma {:induction false} NothingElseIsSaved(disk: Disk, c: Connection, id: DeviceId, flag: Byte, blob: Blob,
                                              chunks: seq<seq<Byte>>)
    requires Stuck(c.block, id, flag, blob) && ReadAll(c)
    ensures var r := Serve(disk, c, chunks);
      && Stuck(r.block, id, flag, blob) && ReadAll(r)
      && r.block.index == Min(c.block.index + |Flatten(chunks)|, PACKET) && r.downloads == c.downloads
      && r.saved == c.saved + Repeat(Upload(id, blob), WithRoom(PACKET - c.block.index, chunks))
    decreases |chunks|
  {
    hide Drain, Callback, Upload, Packet, Stuck;
    if chunks != [] {
      var front, last := chunks[..|chunks| - 1], chunks[|chunks| - 1];
      NothingElseIsSaved(disk, c, id, flag, blob, front);
      StuckCallback(disk, Serve(disk, c, front), id, flag, blob, last);
      var n := WithRoom(PACKET - c.block.index, front);
      var more := if last != [] && Serve(disk, c, front).block.index < PACKET then [Upload(id, blob)] else [];
      assert c.saved + Repeat(Upload(id, blob), n) + more == c.saved + Repeat(Upload(id, blob), n + |more|);
    }
  }

  /** Everything a connection ever saves, once a whole upload has arrived in the callbacks before. */
  lemma SavesAfterUpload(disk: Disk, id: DeviceId, flag: Byte, blob: Blob, first: seq<seq<Byte>>, more: seq<seq<Byte>>)
    requires blob != [] && Flatten(first) == Stream(id, flag, blob)
    ensures var room := DATA - PayloadLength(|blob|, Total(|blob|) - 1);
      Serve(disk, NEW_CONNECTION, first + more).saved == Repeat(Upload(id, blob), 1 + WithRoom(room, more))
  {
    hide Upload, Packet, Stuck, Done, Serve, Stream, AllSaves;
    CleanIsReady(id, flag, blob);
    TransferServe(disk, CLEAN, id, flag, blob, NEW_CONNECTION, first);
    UploadSavedOnce(disk, id, flag, blob, first);
    DoneIsStuck(CLEAN, id, flag, blob);
    ServeJoin(disk, NEW_CONNECTION, first, more);
    var c := Serve(disk, NEW_CONNECTION, first);
    assert c.block == Done(CLEAN, id, flag, blob);
    NothingElseIsSaved(disk, c, id, flag, blob, more);
    var n := WithRoom(PACKET - c.block.index, more);
    assert [Upload(id, blob)] + Repeat(Upload(id, blob), n) == Repeat(Upload(id, blob), 1 + n);
  }
}
