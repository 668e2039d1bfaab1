/** apolloParsePacket as code: a connection's block buffers updated in place. */
module BlockClient {
  import opened Bytes
  import opened Packetiser
  import opened BlockFormat
  import opened BlockReceive
  import HexText

  /** One "SETOK%" for each saved upload. */
  function Acks(n: nat): string {
    if n == 0 then "" else Acks(n - 1) + "SETOK%"
  }

  /** deviceBlockDataSendPacket: the packets of the file a download request names, put together in the
      connection's block buffer and sent from there. */
  method DeviceBlockDataSendPacket(packet: Frame, length: nat, buffer: array<Byte>, file: Path -> Stored)
    returns (result: int, path: Path, sent: seq<seq<Byte>>)
    requires buffer.Length == BUFFER
    modifies buffer
    ensures length != LEN_DEVICE_DOWNLOAD ==> result == -3 && sent == [] && buffer[..] == old(buffer[..])
    ensures length == LEN_DEVICE_DOWNLOAD ==>
      && path == PathAsked(packet) && sent == Packets(SenderId(packet), 0, file(path))
      && buffer[..] == Overlay(old(buffer[..]), SenderId(packet), file(path))
      && result == |Stream(SenderId(packet), 0, file(path))|
  {
    sent := [];
    var id := SenderId(packet);
    var device := HexText.Text(id);
    path := BlockPath(device);
    if length != LEN_DEVICE_DOWNLOAD { return -3, path, []; }
    if packet[13] == 0x60 {
    } else if packet[13] == 0x61 {
      path := AgpsPath(device);
    }
    StreamLength(id, 0, file(path));
    result := TakeDataPacket(file(path), buffer, id);
    sent := SendLoop(buffer, result);
    ChunksArePackets(id, 0, file(path));
    hide Stream, Packets, HexText.Text;
    assert buffer[..] == buffer[..result] + buffer[result..];
  }

  class Client {
    /** The files this connection's downloads will find. */
    const disk: Disk
    const buffer: array<Byte>
    const packet: array<Byte>
    var index: nat
    /** What libevent has received and the callback has not yet removed. */
    var input: seq<Byte>
    var saved: seq<Saved>
    var downloads: seq<Download>
    var output: string

    ghost predicate Valid()
      reads this, buffer, packet
    {
      buffer.Length == BUFFER && packet.Length == PACKET && buffer != packet && index <= PACKET
    }

    ghost function State(): (c: Connection)
      requires Valid()
      reads this, buffer, packet
      ensures c.block.Valid()
    {
      Connection(Block(buffer[..], packet[..], index), input, saved, downloads)
    }

    constructor (disk: Disk)
      ensures Valid() && fresh(buffer) && fresh(packet) && this.disk == disk
      ensures State() == NEW_CONNECTION && output == ""
    {
      buffer := new Byte[BUFFER](_ => 0);
      packet := new Byte[PACKET](_ => 0);
      this.disk := disk;
      index, input, saved, downloads, output := 0, [], [], [], "";
      new;
      assert buffer[..] == Zeros(BUFFER) && packet[..] == Zeros(PACKET);
    }

    /** `chunk` arrives; libevent buffers it and calls apolloParsePacket. */
    method OnRead(chunk: seq<Byte>)
      requires Valid()
      modifies this, buffer, packet
      ensures Valid() && State() == Callback(disk, old(State()), chunk)
      ensures |saved| >= |old(saved)| && output == old(output) + Acks(|saved| - |old(saved)|)
    {
      input := input + chunk;
      ApolloParsePacket();
    }

    method ApolloParsePacket()
      requires Valid()
      modifies this, buffer, packet
      ensures Valid() && State() == Drain(disk, old(State()))
      ensures |saved| >= |old(saved)| && output == old(output) + Acks(|saved| - |old(saved)|)
    {
      hide Pass;
      var blockIndex := index;
      if blockIndex > PACKET { blockIndex := 0; }
      var nbytes := Min(|input|, PACKET - blockIndex);
      while nbytes > 0
        invariant Valid() && blockIndex == index && nbytes == Min(|input|, PACKET - blockIndex)
        invariant Drain(disk, State()) == Drain(disk, old(State()))
        invariant |saved| >= |old(saved)| && output == old(output) + Acks(|saved| - |old(saved)|)
        decreases |input|
      {
        Step(nbytes);
        blockIndex := index;
        nbytes := Min(|input|, PACKET - blockIndex);
      }
    }

    /** evbuffer_remove of n bytes, then one pass of the switch. */
    method Step(n: nat)
      requires Valid() && n == Nbytes(State()) > 0
      modifies this, buffer, packet
      ensures Valid() && State() == Pass(disk, old(State()))
      ensures |old(saved)| <= |saved| <= |old(saved)| + 1
      ensures output == if |saved| == |old(saved)| then old(output) else old(output) + "SETOK%"
    {
      hide Place, SaveOf, Overlay, PathAsked, Packets, SenderId, Stream;
      Remove(n);
      assert saved + [] == saved;
      if packet[0] == HDR_BLOCK_DATA_RECV {
        var dataLength := DataLength(packet[..]);
        var pktIndex := PktIndex(packet[..]);
        var pktTotal := PktTotal(packet[..]);
        if index + n == PACKET && pktIndex + 1 != pktTotal {
          CopyPayload(buffer, packet);
          ClearPacket();
        } else {
          index := index + n;
        }
        if pktIndex + 1 == pktTotal && 0 <= dataLength + HEADER <= index {
          SaveLast();
        }
      } else if packet[0] == HDR_BLOCK_DATA_SEND {
        var k := |downloads|;
        var result, path, sent := DeviceBlockDataSendPacket(packet[..], n, buffer, path => disk(k, path));
        if result >= 0 {
          downloads := downloads + [Download(path, sent)];
        }
      }
    }

    /** The last packet is complete: place it, save the file, answer, and ask for replication. */
    method SaveLast()
      requires Valid()
      modifies this`saved, this`output, buffer
      ensures Valid() && packet[..] == old(packet[..]) && buffer[..] == Place(old(buffer[..]), packet[..])
      ensures saved == old(saved) + [SaveOf(buffer[..], packet[..])] && output == old(output) + "SETOK%"
    {
      hide Place, HexText.Text;
      CopyPayload(buffer, packet);
      var frame := packet[..];
      var device := HexText.Text(SenderId(frame));
      var length := Clip(PktIndex(frame) * DATA + DataLength(frame));
      saved := saved + [Saved(File(BlockPath(device), buffer[..length]), device, MULTICAST_TYPE_AGPS)];
      output := output + "SETOK%";
    }

    method Remove(n: nat)
      requires Valid() && 0 < n <= Min(|input|, PACKET - index)
      modifies this`input, packet
      ensures Valid() && input == old(input)[n..]
      ensures packet[..] == old(packet[..index]) + old(input)[..n] + old(packet[index + n..])
    {
      var i := 0;
      while i < n
        invariant 0 <= i <= n && input == old(input) && index == old(index)
        invariant packet[..] == old(packet[..index]) + input[..i] + old(packet[index + i..])
      {
        packet[index + i] := input[i];
        i := i + 1;
      }
      input := input[n..];
    }

    /** memset over the packet buffer and, with its four extra bytes, the index after it. */
    method ClearPacket()
      requires Valid()
      modifies this`index, packet
      ensures Valid() && packet[..] == Zeros(PACKET) && index == 0
    {
      var i := 0;
      while i < PACKET
        invariant 0 <= i <= PACKET && forall j :: 0 <= j < i ==> packet[j] == 0
      {
        packet[i] := 0;
        i := i + 1;
      }
      index := 0;
      assert packet[..] == Zeros(PACKET);
    }
  }
}
