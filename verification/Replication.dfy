/** The multicast loops as code, and the whole path from a device's stored data to its replica. */
module Replication {
  import opened Bytes
  import opened Packetiser
  import opened BlockFormat
  import opened Multicast
  import HexText

  /** apollo_strcmp: 1 when the first `length` bytes agree. */
  method ApolloStrcmp(str1: array<Byte>, str2: seq<Byte>, length: nat) returns (same: bool)
    requires length <= str1.Length && length <= |str2|
    ensures same <==> str1[..length] == str2[..length]
  {
    var i := 0;
    while i < length
      invariant 0 <= i <= length && str1[..i] == str2[..i]
    {
      if str1[i] != str2[i] {
        assert str1[..length][i] != str2[..length][i];
        return false;
      }
      i := i + 1;
    }
    return true;
  }

  /** The receive loop's variables and the files it has written. */
  class SynerLoop {
    const buffer: array<Byte>
    const devId: array<Byte>
    var written: seq<File>

    ghost predicate Valid()
      reads this
    {
      buffer.Length == BUFFER && devId.Length == DEVICE_ID && buffer != devId
    }

    ghost function State(): Syner
      requires Valid()
      reads this, buffer, devId
    {
      Syner(buffer[..], devId[..])
    }

    constructor ()
      ensures Valid() && fresh(buffer) && fresh(devId)
      ensures State() == Syner(Zeros(BUFFER), Zeros(DEVICE_ID)) && written == []
    {
      buffer := new Byte[BUFFER](_ => 0);
      devId := new Byte[DEVICE_ID](_ => 0);
      written := [];
      new;
      assert buffer[..] == Zeros(BUFFER) && devId[..] == Zeros(DEVICE_ID);
    }

    /** One pass of the loop, for the datagram recvfrom returned. */
    method Pass(d: Datagram)
      requires Valid()
      modifies this, buffer, devId
      ensures Valid()
      ensures var (after, files) := Receive(old(State()), d);
        State() == after && written == old(written) + files
    {
      hide Place, HexText.Text, FrameOf, DataLength, PktIndex, PktTotal, Clip;
      var recvmsg := new Byte[BUFFER_LENGTH](_ => 0);
      CopyIn(recvmsg, d);
      var data := recvmsg[..];
      assert data == FrameOf(d);
      assert written + NO_FILES == written;
      var dataLength := DataLength(data);
      var pktIndex := PktIndex(data);
      var pktTotal := PktTotal(data);
      if data[0] != HDR_BLOCK_DATA_RECV {
        return;
      }
      if pktIndex == 0 {
        TakeOwnership(data);
      }
      var same := ApolloStrcmp(devId, SenderId(data), DEVICE_ID);
      assert devId[..DEVICE_ID] == devId[..] && SenderId(data)[..DEVICE_ID] == SenderId(data);
      if !same {
        return;
      }
      if |d| == PACKET && pktIndex + 1 != pktTotal {
        CopyPayload(buffer, recvmsg);
      }
      if pktIndex + 1 == pktTotal {
        CopyPayload(buffer, recvmsg);
        var device := HexText.Text(SenderId(data));
        var path := if data[IDX_FLAG] == MULTICAST_TYPE_BLOCK then BlockPath(device)
                    else if data[IDX_FLAG] == MULTICAST_TYPE_AGPS then AgpsPath(device)
                    else BlockPath(device);
        written := written + [File(path, buffer[..Clip(pktIndex * DATA + dataLength)])];
        ClearBuffer();
      }
    }

    method TakeOwnership(data: Frame)
      requires Valid()
      modifies devId
      ensures devId[..] == SenderId(data)
    {
      var i := 0;
      while i < DEVICE_ID
        invariant 0 <= i <= DEVICE_ID && forall j :: 0 <= j < i ==> devId[j] == SenderId(data)[j]
      {
        devId[i] := data[IDX_DEVICE_ID + i];
        i := i + 1;
      }
    }

    method ClearBuffer()
      requires Valid()
      modifies buffer
      ensures buffer[..] == Zeros(BUFFER)
    {
      var i := 0;
      while i < BUFFER
        invariant 0 <= i <= BUFFER && forall j :: 0 <= j < i ==> buffer[j] == 0
      {
        buffer[i] := 0;
        i := i + 1;
      }
    }
  }

  method CopyIn(recvmsg: array<Byte>, d: Datagram)
    requires recvmsg.Length == BUFFER_LENGTH && recvmsg[..] == Zeros(BUFFER_LENGTH)
    modifies recvmsg
    ensures recvmsg[..] == FrameOf(d)
  {
    var i := 0;
    while i < |d|
      invariant 0 <= i <= |d|
      invariant forall j :: 0 <= j < BUFFER_LENGTH ==> recvmsg[j] == if j < i then d[j] else 0
    {
      recvmsg[i] := d[i];
      i := i + 1;
    }
  }

  /** ApolloSynerAction: the device number arrives as text, the data is always the agps file. */
  method ApolloSynerAction(device: array<char>, flag: Byte, agpsFile: Blob) returns (path: Path, sent: seq<seq<Byte>>)
    requires device.Length >= 2 * DEVICE_ID && Fits(agpsFile)
    modifies device
    ensures path == AgpsPath(old(device[..2 * DEVICE_ID]))
    ensures sent == Packets(HexText.FromText(old(device[..2 * DEVICE_ID])), flag, agpsFile)
  {
    path := AgpsPath(device[..2 * DEVICE_ID]);
    var devId: DeviceId := HexText.StringToHex(device, DEVICE_ID);
    var sendBuf := new Byte[BUFFER];
    StreamLength(devId, 0, agpsFile);
    var totalLength := TakeDataPacket(agpsFile, sendBuf, devId);
    assert totalLength > 0 ==> totalLength % PACKET == 0 || totalLength % PACKET > IDX_FLAG;
    TakeDataPacketFlag(sendBuf, totalLength, flag);
    StampPackets(devId, flag, agpsFile);
    assert sendBuf[..totalLength] == Stream(devId, flag, agpsFile);
    sent := SendLoop(sendBuf, totalLength);
    ChunksArePackets(devId, flag, agpsFile);
  }

  /** Before the last of the packets `ps`: the others, each at least once, and noise. */
  ghost predicate AllArrive(ps: seq<seq<Byte>>, body: seq<Datagram>) {
    forall k :: 0 <= k < |ps| - 1 ==> ps[k] in body
  }

  ghost predicate NoOthers(id: DeviceId, ps: seq<seq<Byte>>, body: seq<Datagram>)
    requires ps != []
  {
    forall i :: 0 <= i < |body| ==> body[i] in ps[..|ps| - 1] || Noise(id, body[i])
  }

  /** What a receiver makes of the datagrams ApolloSynerAction sends for device `id`, flagged as agps
      data, when each arrives and the last arrives once and last: the replica is whole, whatever the
      buffer held, and it lands under the path the sender read if and only if the device number is BCD. */
  lemma ReplicaRoundTrip(buf: Buffer, a: DeviceId, id: DeviceId, agpsFile: Blob, body: seq<Datagram>)
    requires agpsFile != []
    requires var sentId := HexText.FromText(HexText.Text(id));
      var ps := Packets(sentId, MULTICAST_TYPE_AGPS, agpsFile);
      && AllArrive(ps, body) && NoOthers(sentId, ps, body)
      && (a == sentId || (body + [ps[|ps| - 1]])[0] == ps[0])
    ensures var sentId := HexText.FromText(HexText.Text(id));
      var ps := Packets(sentId, MULTICAST_TYPE_AGPS, agpsFile);
      var target := AgpsPath(HexText.Text(HexText.BcdParts(id)));
      && Run(Syner(buf, a), body + [ps[|ps| - 1]]).1 == [File(target, agpsFile)]
      && (target == AgpsPath(HexText.Text(id)) <==> HexText.IsBcd(id))
  {
    hide Run, AllArrive, NoOthers;
    var sentId: DeviceId := HexText.FromText(HexText.Text(id));
    HexText.FromTextOfText(id);
    PacketsDelivered(buf, a, sentId, MULTICAST_TYPE_AGPS, agpsFile, body);
    if HexText.Text(HexText.BcdParts(id)) == HexText.Text(id) {
      HexText.TextInjective(HexText.BcdParts(id), id);
    }
  }

  /** Whole delivery, in terms of what the send loop hands over. */
  lemma PacketsDelivered(buf: Buffer, a: DeviceId, id: DeviceId, flag: Byte, blob: Blob, body: seq<Datagram>)
    requires blob != []
    requires var ps := Packets(id, flag, blob);
      && AllArrive(ps, body) && NoOthers(id, ps, body)
      && (a == id || (body + [ps[|ps| - 1]])[0] == ps[0])
    ensures var ps := Packets(id, flag, blob);
      Run(Syner(buf, a), body + [ps[|ps| - 1]]).1 == [File(Destination(id, flag), blob)]
  {
    hide Packets, Sent, Run, Noise, Body, Destination, NoOthers;
    SentPackets(id, flag, blob);
    BodyOfPackets(id, flag, blob, body);
    var ps := Packets(id, flag, blob);
    forall k | 0 <= k < Total(|blob|) - 1 ensures Sent(id, flag, blob, k) in body {
      assert ps[k] in body;
    }
    WholeDelivery(buf, a, id, flag, blob, body);
  }

  lemma BodyOfPackets(id: DeviceId, flag: Byte, blob: Blob, body: seq<Datagram>)
    requires blob != [] && NoOthers(id, Packets(id, flag, blob), body)
    ensures Body(id, flag, blob, body)
  {
    hide Packets, Sent, Noise;
    var ps := Packets(id, flag, blob);
    SentPackets(id, flag, blob);
    forall i | 0 <= i < |body| ensures Middle(id, flag, blob, body[i]) || Noise(id, body[i]) {
      if body[i] in ps[..|ps| - 1] {
        var k :| 0 <= k < |ps| - 1 && ps[k] == body[i];
        assert body[i] == Sent(id, flag, blob, k);
      }
    }
  }

  lemma SentPackets(id: DeviceId, flag: Byte, blob: Blob)
    ensures forall k :: 0 <= k < Total(|blob|) ==> Packets(id, flag, blob)[k] == Sent(id, flag, blob, k)
  {
  }
}
