/** Cutting a file into 1024-byte packets (takeDataPacket, takeDataPacketFlag) and the send loops. */
module Packetiser {
  import opened Bytes
  import Wire

  const DEVICE_ID := 8
  const HEADER := 32
  const PACKET := 1024
  const DATA := 992
  const BUFFER := 32768
  const MAX_PACKETS := 32

  const HDR_BLOCK_DATA_RECV: Byte := 0x56

  /** Field offsets inside a packet. */
  const IDX_DEVICE_ID := 1
  const IDX_INDEX := 13
  const IDX_FLAG := 20
  const IDX_TOTAL := 29
  const IDX_LENGTH := 30

  type DeviceId = id: seq<Byte> | |id| == DEVICE_ID witness Zeros(DEVICE_ID)

  /** What read_dat can return: at most 32 KiB of a file. */
  type Blob = b: seq<Byte> | |b| <= BUFFER

  /** Its packets fit the 32 KiB block buffer. */
  predicate Fits(blob: Blob) {
    |blob| <= MAX_PACKETS * DATA
  }

  type Stored = b: Blob | Fits(b) witness []

  /** How many packets a file of `size` bytes takes. */
  function Total(size: nat): (t: nat)
    ensures t * DATA < size + DATA
    ensures size <= t * DATA
  {
    if size % DATA != 0 then size / DATA + 1 else size / DATA
  }

  function PayloadLength(size: nat, k: nat): (n: nat)
    requires k < Total(size)
    ensures 0 < n <= DATA && k * DATA + n <= size
    ensures n == DATA <==> (k + 1) * DATA <= size
    ensures k + 1 == Total(size) <==> k * DATA + n == size
  {
    Min(DATA, size - k * DATA)
  }

  /** One byte of a packet header: 'V', the sender, four constants, then the fields; the rest is zero. */
  function HeaderByte(id: DeviceId, flag: Byte, k: Byte, total: Byte, length: nat, i: nat): Byte
    requires length < 0x10000 && i < HEADER
  {
    if i == 0 then HDR_BLOCK_DATA_RECV
    else if i <= DEVICE_ID then id[i - IDX_DEVICE_ID]
    else if i == 9 then 0x15
    else if i == 10 then 0x09
    else if i == 12 then 0x02
    else if i == IDX_INDEX then k
    else if i == IDX_FLAG then flag
    else if i == IDX_TOTAL then total
    else if i == IDX_LENGTH then length / 256
    else if i == IDX_LENGTH + 1 then length % 256
    else 0
  }

  function Header(id: DeviceId, flag: Byte, k: Byte, total: Byte, length: nat): (h: seq<Byte>)
    requires length < 0x10000
    ensures |h| == HEADER
  {
    seq(HEADER, i requires 0 <= i < HEADER => HeaderByte(id, flag, k, total, length, i))
  }

  function Payload(blob: Blob, k: nat): (p: seq<Byte>)
    requires k < Total(|blob|)
    ensures |p| == PayloadLength(|blob|, k)
  {
    blob[k * DATA..k * DATA + PayloadLength(|blob|, k)]
  }

  function Packet(id: DeviceId, flag: Byte, blob: Blob, k: nat): (p: seq<Byte>)
    requires k < Total(|blob|)
    ensures |p| == HEADER + PayloadLength(|blob|, k)
  {
    Header(id, flag, k, Total(|blob|), PayloadLength(|blob|, k)) + Payload(blob, k)
  }

  /** The packets of a file, in order. */
  function Packets(id: DeviceId, flag: Byte, blob: Blob): (ps: seq<seq<Byte>>)
    ensures |ps| == Total(|blob|)
  {
    seq(Total(|blob|), k requires 0 <= k < Total(|blob|) => Packet(id, flag, blob, k))
  }

  /** What takeDataPacket leaves in its output buffer. */
  function Stream(id: DeviceId, flag: Byte, blob: Blob): seq<Byte> {
    Flatten(Packets(id, flag, blob))
  }

  /** Reading a packet's fields back. */
  lemma HeaderFields(id: DeviceId, flag: Byte, blob: Blob, k: nat)
    requires k < Total(|blob|)
    ensures var p := Packet(id, flag, blob, k);
      && p[0] == HDR_BLOCK_DATA_RECV
      && p[IDX_DEVICE_ID..IDX_DEVICE_ID + DEVICE_ID] == id
      && p[IDX_INDEX] == k && p[IDX_FLAG] == flag && p[IDX_TOTAL] == Total(|blob|) < 128
      && p[IDX_LENGTH] as int * 256 + p[IDX_LENGTH + 1] == PayloadLength(|blob|, k) && p[IDX_LENGTH] < 4
      && p[HEADER..] == Payload(blob, k)
  {
  }

  /** The packets, byte by byte. */
  lemma PacketLayout(id: DeviceId, flag: Byte, blob: Blob, k: nat)
    requires k < Total(|blob|)
    ensures k < Wire.PacketCount(|blob|) < 128
    ensures Packet(id, flag, blob, k) ==
            Wire.BlockPacket(id, k, flag, Wire.PacketCount(|blob|), Wire.PayloadOf(blob, k))
  {
    var p := Packet(id, flag, blob, k);
    var q := Wire.BlockPacket(id, k, flag, Wire.PacketCount(|blob|), Wire.PayloadOf(blob, k));
    assert p[..32] == q[..32];
    assert p[32..] == q[32..];
    assert p == p[..32] + p[32..];
  }

  /** The stream, packet by packet: one every 1024 bytes, and nothing after the last. */
  lemma StreamLayout(id: DeviceId, flag: Byte, blob: Blob)
    ensures var s, n := Stream(id, flag, blob), Wire.PacketCount(|blob|);
      && n < 128 && |s| == |blob| + 32 * n
      && forall k :: 0 <= k < n ==>
           var p := Wire.BlockPacket(id, k, flag, n, Wire.PayloadOf(blob, k));
           1024 * k + |p| <= |s| && s[1024 * k..1024 * k + |p|] == p
  {
    var n := Wire.PacketCount(|blob|);
    assert n == Total(|blob|);
    hide Stream, Wire.BlockPacket, Wire.PayloadOf;
    StreamLength(id, flag, blob);
    forall k | 0 <= k < n
      ensures var s, p := Stream(id, flag, blob), Wire.BlockPacket(id, k, flag, n, Wire.PayloadOf(blob, k));
        1024 * k + |p| <= |s| && s[1024 * k..1024 * k + |p|] == p
    {
      PacketInStream(id, flag, blob, k);
    }
  }

  lemma PacketInStream(id: DeviceId, flag: Byte, blob: Blob, k: nat)
    requires k < Wire.PacketCount(|blob|)
    ensures Wire.PacketCount(|blob|) < 128
    ensures var s, n := Stream(id, flag, blob), Wire.PacketCount(|blob|);
      var p := Wire.BlockPacket(id, k, flag, n, Wire.PayloadOf(blob, k));
      1024 * k + |p| <= |s| && s[1024 * k..1024 * k + |p|] == p
  {
    assert Wire.PacketCount(|blob|) == Total(|blob|);
    hide Stream, Packet, Wire.BlockPacket, Wire.PayloadOf;
    PacketAt(id, flag, blob, k);
    PacketLayout(id, flag, blob, k);
  }

  /** The first k packets, all but the last of which are full. */
  lemma {:induction false} PrefixLength(id: DeviceId, flag: Byte, blob: Blob, k: nat)
    requires k <= Total(|blob|)
    ensures |Flatten(Packets(id, flag, blob)[..k])| ==
            if k < Total(|blob|) then k * PACKET else |blob| + HEADER * k
  {
    var ps := Packets(id, flag, blob);
    if k > 0 {
      PrefixLength(id, flag, blob, k - 1);
      assert ps[..k][..k - 1] == ps[..k - 1];
      assert ps[k - 1] == Packet(id, flag, blob, k - 1);
    }
  }

  /** The packetised size, and when it fits the buffer. */
  lemma StreamLength(id: DeviceId, flag: Byte, blob: Blob)
    ensures |Stream(id, flag, blob)| == |blob| + HEADER * Total(|blob|)
    ensures |Stream(id, flag, blob)| <= BUFFER <==> Fits(blob)
  {
    PrefixLength(id, flag, blob, Total(|blob|));
    assert Packets(id, flag, blob)[..Total(|blob|)] == Packets(id, flag, blob);
  }

  lemma FitsBuffer(size: nat)
    ensures size + HEADER * Total(size) <= BUFFER <==> size <= MAX_PACKETS * DATA
  {
  }

  /** Packet k is found at offset k * 1024 of the stream. */
  lemma PacketAt(id: DeviceId, flag: Byte, blob: Blob, k: nat)
    requires k < Total(|blob|)
    ensures var s := Stream(id, flag, blob);
      && k * PACKET + |Packet(id, flag, blob, k)| <= |s|
      && s[k * PACKET..k * PACKET + |Packet(id, flag, blob, k)|] == Packet(id, flag, blob, k)
      && (k + 1 == Total(|blob|) <==> k * PACKET + |Packet(id, flag, blob, k)| == |s|)
  {
    var ps, s := Packets(id, flag, blob), Stream(id, flag, blob);
    PrefixLength(id, flag, blob, k);
    PrefixLength(id, flag, blob, k + 1);
    StreamLength(id, flag, blob);
    FlattenPrefix(ps, k + 1);
    ExtendPrefix(ps, k);
    PacketIs(id, flag, blob, k);
    hide Packets, Packet, Stream, Flatten;
    var front := Flatten(ps[..k]);
    assert s[..|front| + |ps[k]|] == front + ps[k];
    assert s[..|front| + |ps[k]|][|front|..] == ps[k];
  }

  /** Concatenating the payloads of the first k packets gives a prefix of the file back; of all, the file. */
  lemma {:induction false} PayloadsGiveBlob(id: DeviceId, flag: Byte, blob: Blob, k: nat)
    requires k <= Total(|blob|)
    ensures var ps := Packets(id, flag, blob);
      Flatten(seq(k, i requires 0 <= i < k => ps[i][HEADER..])) == blob[..Min(k * DATA, |blob|)]
    ensures Min(Total(|blob|) * DATA, |blob|) == |blob|
  {
    if k > 0 {
      PayloadsGiveBlob(id, flag, blob, k - 1);
      var ps := Packets(id, flag, blob);
      var bodies := seq(k, i requires 0 <= i < k => ps[i][HEADER..]);
      assert bodies[..k - 1] == seq(k - 1, i requires 0 <= i < k - 1 => ps[i][HEADER..]);
      assert bodies[k - 1] == Payload(blob, k - 1);
    }
  }

  /** The inner byte loops of takeDataPacket: append `count` bytes of `source` at `index`. */
  method Append(data: array<Byte>, index: nat, source: seq<Byte>, from: nat, count: nat) returns (next: nat)
    requires from + count <= |source| && index + count <= data.Length
    modifies data
    ensures next == index + count
    ensures data[..next] == old(data[..index]) + source[from..from + count]
    ensures forall p :: next <= p < data.Length ==> data[p] == old(data[p])
  {
    next := index;
    var j := 0;
    while j < count
      invariant 0 <= j <= count && next == index + j
      invariant data[..next] == old(data[..index]) + source[from..from + j]
      invariant forall p :: next <= p < data.Length ==> data[p] == old(data[p])
    {
      data[next] := source[from + j];
      next := next + 1;
      j := j + 1;
    }
  }

  /** The local header array of takeDataPacket: its initialiser, the id loop and the packet count. */
  method NewHeader(id: DeviceId, size: nat) returns (header: array<Byte>)
    requires Total(size) < 256
    ensures fresh(header) && header[..] == Header(id, 0, 0, Total(size), 0)
  {
    header := new Byte[HEADER] [
      HDR_BLOCK_DATA_RECV, 0x0, 0x86, 0x18, 0x64, 0x33, 0x87, 0x42,
      0x90, 0x15, 0x09, 0x00, 0x02, 0x0, 0x0, 0x0,
      0x0, 0x0, 0x0, 0x0, 0x0, 0x0, 0x0, 0x0,
      0x0, 0x0, 0x0, 0x0, 0x0, 0x0, 0x0, 0x0];
    var i := 0;
    while i < DEVICE_ID
      invariant 0 <= i <= DEVICE_ID
      invariant header[0] == HDR_BLOCK_DATA_RECV && forall j :: 0 <= j < i ==> header[j + 1] == id[j]
      invariant forall j :: DEVICE_ID < j < HEADER ==> header[j] == HeaderByte(id, 0, 0, 0, 0, j)
    {
      header[i + 1] := id[i];
      i := i + 1;
    }
    header[IDX_TOTAL] := if size % DATA != 0 then size / DATA + 1 else size / DATA;
  }

  /** Set the index and length fields, then append header and payload. */
  method EmitPacket(data: array<Byte>, index: nat, header: array<Byte>, blob: Blob, i: nat, length: nat,
                    ghost id: DeviceId, ghost k: Byte, ghost n: nat) returns (next: nat)
    requires header != data && n < 0x10000 && header[..] == Header(id, 0, k, Total(|blob|), n)
    requires i < Total(|blob|) && length == PayloadLength(|blob|, i)
    requires index + HEADER + length <= data.Length
    modifies data, header
    ensures header[..] == Header(id, 0, i, Total(|blob|), length)
    ensures next == index + HEADER + length
    ensures data[..next] == old(data[..index]) + Packet(id, 0, blob, i)
    ensures forall p :: next <= p < data.Length ==> data[p] == old(data[p])
  {
    header[IDX_INDEX] := i;
    header[IDX_LENGTH] := length / 256;
    header[IDX_LENGTH + 1] := length % 256;
    assert header[..] == Header(id, 0, i, Total(|blob|), length);
    next := Append(data, index, header[..], 0, HEADER);
    next := Append(data, next, blob, i * DATA, length);
  }

  method TakeDataPacket(blob: Blob, data: array<Byte>, id: DeviceId) returns (index: nat)
    requires |blob| + HEADER * Total(|blob|) <= data.Length
    modifies data
    ensures index == |Stream(id, 0, blob)| <= data.Length
    ensures data[..index] == Stream(id, 0, blob)
    ensures forall p :: index <= p < data.Length ==> data[p] == old(data[p])
  {
    hide Header, Packet, Packets, Payload, PayloadLength;
    index := 0;
    var size := |blob|;
    var header := NewHeader(id, size);
    ghost var ps := Packets(id, 0, blob);
    ghost var k: Byte, n: nat := 0, 0;
    StreamLength(id, 0, blob);
    assert Flatten(ps[..0]) == [] && data[..0] == [];
    hide Flatten, Stream;
    assert Stream(id, 0, blob) == Flatten(ps) by { StreamIs(id, 0, blob); }
    var i := 0;
    while i < size / DATA
      invariant 0 <= i <= size / DATA
      invariant n < 0x10000 && header[..] == Header(id, 0, k, Total(size), n)
      invariant index == |Flatten(ps[..i])| == i * PACKET
      invariant data[..index] == Flatten(ps[..i])
      invariant forall p :: index <= p < data.Length ==> data[p] == old(data[p])
    {
      index := EmitPacket(data, index, header, blob, i, DATA, id, k, n);
      ExtendPrefix(ps, i);
      PacketIs(id, 0, blob, i);
      k, n := i, DATA;
      i := i + 1;
    }
    if size % DATA != 0 {
      index := EmitPacket(data, index, header, blob, i, size % DATA, id, k, n);
      ExtendPrefix(ps, i);
      PacketIs(id, 0, blob, i);
      i := i + 1;
    }
    assert ps[..i] == ps;
  }

  lemma PacketIs(id: DeviceId, flag: Byte, blob: Blob, k: nat)
    requires k < Total(|blob|)
    ensures Packets(id, flag, blob)[k] == Packet(id, flag, blob, k)
  {
  }

  lemma StreamIs(id: DeviceId, flag: Byte, blob: Blob)
    ensures Stream(id, flag, blob) == Flatten(Packets(id, flag, blob))
  {
  }

  lemma ExtendPrefix<T>(parts: seq<seq<T>>, i: nat)
    requires i < |parts|
    ensures Flatten(parts[..i + 1]) == Flatten(parts[..i]) + parts[i]
  {
    assert parts[..i + 1] == parts[..i] + [parts[i]];
    FlattenAppend(parts[..i], parts[i]);
  }

  /** takeDataPacketFlag on values: byte 20 of every 1024-byte chunk that starts before `length`. */
  function Stamped(s: seq<Byte>, length: nat, flag: Byte): (r: seq<Byte>)
    ensures |r| == |s|
  {
    seq(|s|, p requires 0 <= p < |s| =>
      if p % PACKET == IDX_FLAG && p - IDX_FLAG < length then flag else s[p])
  }

  method TakeDataPacketFlag(data: array<Byte>, length: nat, flag: Byte)
    requires length > 0 ==> (length - 1) / PACKET * PACKET + IDX_FLAG < data.Length
    modifies data
    ensures data[..] == Stamped(old(data[..]), length, flag)
  {
    var i := 0;
    while i * PACKET < length
      invariant 0 <= i && i * PACKET < length + PACKET
      invariant forall p :: 0 <= p < data.Length ==>
        data[p] == if p % PACKET == IDX_FLAG && p < i * PACKET then flag else old(data[p])
    {
      data[i * PACKET + IDX_FLAG] := flag;
      i := i + 1;
    }
    forall p | 0 <= p < data.Length ensures data[p] == Stamped(old(data[..]), length, flag)[p] {
      if p % PACKET == IDX_FLAG { StampRange(p, i, length); }
    }
  }

  lemma StampRange(p: nat, i: nat, length: nat)
    requires p % PACKET == IDX_FLAG && length <= i * PACKET < length + PACKET
    ensures p < i * PACKET <==> p - IDX_FLAG < length
  {
    assert p == p / PACKET * PACKET + IDX_FLAG;
  }

  /** Byte p of the stream is byte p % 1024 of packet p / 1024. */
  lemma ByteOfStream(id: DeviceId, flag: Byte, blob: Blob, p: nat)
    requires p < |Stream(id, flag, blob)|
    ensures p / PACKET < Total(|blob|) && p % PACKET < |Packet(id, flag, blob, p / PACKET)|
    ensures Stream(id, flag, blob)[p] == Packet(id, flag, blob, p / PACKET)[p % PACKET]
  {
    hide Stream, Packet;
    StreamLength(id, flag, blob);
    var s, k, r := Stream(id, flag, blob), p / PACKET, p % PACKET;
    assert p == k * PACKET + r;
    PacketAt(id, flag, blob, k);
    assert s[k * PACKET..k * PACKET + |Packet(id, flag, blob, k)|][r] == s[p];
  }

  lemma FlagByte(id: DeviceId, flag: Byte, blob: Blob, k: nat, r: nat)
    requires k < Total(|blob|) && r < |Packet(id, 0, blob, k)|
    ensures Packet(id, flag, blob, k)[r] == if r == IDX_FLAG then flag else Packet(id, 0, blob, k)[r]
  {
  }

  /** Stamping a packetised file gives the packets that carry the flag from the start: nothing else changes. */
  lemma StampPackets(id: DeviceId, flag: Byte, blob: Blob)
    ensures var s := Stream(id, 0, blob); Stamped(s, |s|, flag) == Stream(id, flag, blob)
  {
    hide Stream, Packet;
    var s, t := Stream(id, 0, blob), Stream(id, flag, blob);
    StreamLength(id, 0, blob);
    StreamLength(id, flag, blob);
    forall p | 0 <= p < |s| ensures Stamped(s, |s|, flag)[p] == t[p] {
      ByteOfStream(id, 0, blob, p);
      ByteOfStream(id, flag, blob, p);
      FlagByte(id, flag, blob, p / PACKET, p % PACKET);
      assert p == p / PACKET * PACKET + p % PACKET;
    }
  }

  /** Cutting at multiples of 1024: what the send loops hand to the network, one entry per call. */
  function Chunks(s: seq<Byte>): seq<seq<Byte>> {
    if s == [] then []
    else if |s| >= PACKET then [s[..PACKET]] + Chunks(s[PACKET..])
    else [s]
  }

  /** One pass of the send loop. */
  lemma SendStep(all: seq<Byte>, done: nat, sent: seq<seq<Byte>>)
    requires done < |all| && sent + Chunks(all[done..]) == Chunks(all) && Flatten(sent) == all[..done]
    ensures var next := Min(done + PACKET, |all|);
      var after := sent + [all[done..next]];
      after + Chunks(all[next..]) == Chunks(all) && Flatten(after) == all[..next]
  {
    var next, rest := Min(done + PACKET, |all|), all[done..];
    assert all[..next] == all[..done] + all[done..next];
    FlattenAppend(sent, all[done..next]);
    assert Chunks(rest) == [all[done..next]] + Chunks(all[next..]) by {
      if |rest| >= PACKET {
        assert rest[..PACKET] == all[done..next] && rest[PACKET..] == all[next..];
      } else {
        assert rest == all[done..next] && all[next..] == [];
      }
    }
    hide Chunks, Flatten;
    assert sent + [all[done..next]] + Chunks(all[next..]) == sent + ([all[done..next]] + Chunks(all[next..]));
  }

  /** The loop shared by deviceBlockDataSendPacket and ApolloSynerAction. */
  method SendLoop(data: array<Byte>, totalLength: nat) returns (sent: seq<seq<Byte>>)
    requires totalLength <= data.Length
    ensures sent == Chunks(data[..totalLength])
    ensures Flatten(sent) == data[..totalLength]
  {
    var sendLength := 0;
    sent := [];
    ghost var all := data[..totalLength];
    assert all[0..] == all && all[..totalLength] == all;
    while sendLength < totalLength
      invariant 0 <= sendLength <= totalLength
      invariant sent + Chunks(all[sendLength..]) == Chunks(all)
      invariant Flatten(sent) == all[..sendLength]
      decreases totalLength - sendLength
    {
      hide Chunks, Flatten;
      SendStep(all, sendLength, sent);
      if totalLength - sendLength >= PACKET {
        assert data[sendLength..sendLength + PACKET] == all[sendLength..sendLength + PACKET];
        sent := sent + [data[sendLength..sendLength + PACKET]];
        sendLength := sendLength + PACKET;
      } else {
        assert data[sendLength..totalLength] == all[sendLength..totalLength];
        sent := sent + [data[sendLength..totalLength]];
        sendLength := totalLength;
      }
    }
  }

  /** The send loops emit exactly the packets, one per call. */
  lemma ChunksArePackets(id: DeviceId, flag: Byte, blob: Blob)
    ensures Chunks(Stream(id, flag, blob)) == Packets(id, flag, blob)
  {
    ChunksFrom(id, flag, blob, 0);
    var s := Stream(id, flag, blob);
    assert s[0 * PACKET..] == s;
    assert Packets(id, flag, blob)[0..] == Packets(id, flag, blob);
  }

  lemma {:induction false} ChunksFrom(id: DeviceId, flag: Byte, blob: Blob, k: nat)
    requires k <= Total(|blob|)
    ensures var s := Stream(id, flag, blob);
      && (k < Total(|blob|) ==> k * PACKET < |s|)
      && Chunks(s[Min(k * PACKET, |s|)..]) == Packets(id, flag, blob)[k..]
    decreases Total(|blob|) - k
  {
    var s, ps := Stream(id, flag, blob), Packets(id, flag, blob);
    StreamLength(id, flag, blob);
    if k < Total(|blob|) {
      PacketAt(id, flag, blob, k);
      ChunksFrom(id, flag, blob, k + 1);
      var rest := s[k * PACKET..];
      assert ps[k..] == [ps[k]] + ps[k + 1..];
      if k + 1 < Total(|blob|) {
        assert rest[..PACKET] == ps[k];
        assert rest[PACKET..] == s[(k + 1) * PACKET..];
      } else {
        assert rest == ps[k];
        assert ps[k + 1..] == [];
        if |rest| >= PACKET {
          assert rest[..PACKET] == rest && rest[PACKET..] == [];
        }
      }
    }
  }
}
