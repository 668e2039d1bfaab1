/** Replication by UDP multicast: the ApolloSyner receive loop and the ApolloSynerAction sender. */
module Multicast {
  import opened Bytes
  import opened Packetiser
  import opened BlockFormat
  import HexText

  const BUFFER_LENGTH := 1048

  /** What recvfrom leaves in the zeroed receive buffer; a datagram is cut at 1024 bytes, and an
      empty one stands for an empty or failed receive. */
  type Datagram = d: seq<Byte> | |d| <= PACKET witness []

  function FrameOf(d: Datagram): (f: Frame)
    ensures |f| == BUFFER_LENGTH
  {
    d + Zeros(BUFFER_LENGTH - |d|)
  }

  /** The loop's own state: the block buffer and the device that owns it. */
  datatype Syner = Syner(buffer: Buffer, devId: DeviceId)

  predicate Good(d: Datagram) { FrameOf(d)[0] == HDR_BLOCK_DATA_RECV }

  function OwnerAfter(devId: DeviceId, d: Datagram): DeviceId {
    if Good(d) && PktIndex(FrameOf(d)) == 0 then SenderId(FrameOf(d)) else devId
  }

  /** The packet passes the header test and the owner test. */
  predicate Accepts(devId: DeviceId, d: Datagram) {
    Good(d) && OwnerAfter(devId, d) == SenderId(FrameOf(d))
  }

  /** An accepted packet is copied when it is full-sized or the last. */
  predicate Copied(d: Datagram) {
    |d| == PACKET || IsLast(FrameOf(d))
  }

  function PathOf(f: Frame): Path {
    var device := HexText.Text(SenderId(f));
    if f[IDX_FLAG] == MULTICAST_TYPE_AGPS then AgpsPath(device) else BlockPath(device)
  }

  /** One pass of the receive loop. */
  function Receive(s: Syner, d: Datagram): (Syner, seq<File>) {
    var f := FrameOf(d);
    var devId := OwnerAfter(s.devId, d);
    if !Accepts(s.devId, d) then (Syner(s.buffer, devId), [])
    else
      var buffer := if Copied(d) then Place(s.buffer, f) else s.buffer;
      if IsLast(f) then (Syner(Zeros(BUFFER), devId), [File(PathOf(f), FileContent(buffer, f))])
      else (Syner(buffer, devId), [])
  }

  const NO_FILES: seq<File> := []

  // ---------- One datagram, byte by byte ----------

  /** An empty or failed receive, and a datagram that is no block packet, change nothing. */
  lemma BadHeaderIgnored(s: Syner, d: Datagram)
    requires d == [] || d[0] != 0x56
    ensures Receive(s, d) == (s, [])
  {
  }

  /** The block buffer after n bytes from byte 32 on have been copied to block i. */
  function CopyBlock(buffer: Buffer, e: seq<Byte>, i: int, n: int): Buffer {
    seq(32768, p requires 0 <= p < 32768 =>
      if 992 * i <= p < 992 * i + n && 32 + p - 992 * i < |e| then e[32 + p - 992 * i] else buffer[p])
  }

  /** What a block packet does, for every value of its fields, in the zeroed receive buffer: 1 to 8 the sender,
      13 the packet's number, 20 the flag, 29 the packet count, 30 and 31 the length. Packet 0 takes ownership;
      other senders' packets are ignored; a full packet before the last is placed, and the last is placed and
      the file written. */
  lemma DatagramRead(s: Syner, d: Datagram)
    requires d != [] && d[0] == 0x56
    ensures var e := d + Zeros(1048 - |d|);
      var i, n, sender := Signed(e[13]), Signed(e[30]) * 256 + e[31], e[1..9];
      var owner, last := if i == 0 then sender else s.devId, i + 1 == Signed(e[29]);
      var placed := CopyBlock(s.buffer, e, i, n);
      var (after, files) := Receive(s, d);
      && after.devId == owner
      && after.buffer == (if owner != sender then s.buffer
                          else if last then Zeros(32768)
                          else if |d| == 1024 then placed else s.buffer)
      && |files| == (if owner == sender && last then 1 else 0)
      && (files != [] ==>
            && files[0].path.Name() ==
                 (if e[20] == 0x32 then "/usr/RServer/agps_data/" + HexText.Text(sender) + "_agps.dat"
                  else "/usr/RServer/block_data/" + HexText.Text(sender))
            && (0 <= 992 * i + n <= 32768 ==> files[0].content == placed[..992 * i + n]))
  {
    var f := FrameOf(d);
    assert f == d + Zeros(1048 - |d|);
    assert Place(s.buffer, f) == CopyBlock(s.buffer, f, Signed(f[13]), Signed(f[30]) * 256 + f[31]);
    hide Place, CopyBlock, HexText.Text, FrameOf;
  }

  /** A whole run of the loop, with the files written. */
  function Run(s: Syner, run: seq<Datagram>): (Syner, seq<File>) {
    if run == [] then (s, [])
    else
      var (before, files) := Run(s, run[..|run| - 1]);
      var (after, more) := Receive(before, run[|run| - 1]);
      (after, files + more)
  }

  // ---------- Every run: where each buffer byte comes from ----------

  /** The owner after a run, from the run alone: the sender of the latest good packet 0, if any. */
  function Owner(devId: DeviceId, run: seq<Datagram>): DeviceId {
    if run == [] then devId else OwnerAfter(Owner(devId, run[..|run| - 1]), run[|run| - 1])
  }

  predicate AcceptedAt(devId: DeviceId, run: seq<Datagram>, i: nat)
    requires i < |run|
  {
    Accepts(Owner(devId, run[..i]), run[i])
  }

  /** A file is written, and the buffer cleared, at position i. */
  predicate SavesAt(devId: DeviceId, run: seq<Datagram>, i: nat)
    requires i < |run|
  {
    AcceptedAt(devId, run, i) && IsLast(FrameOf(run[i]))
  }

  /** Packet i wrote byte p, and no clear has followed. */
  ghost predicate Live(devId: DeviceId, run: seq<Datagram>, i: nat, p: nat)
    requires i < |run|
  {
    && AcceptedAt(devId, run, i) && Copied(run[i]) && Covers(FrameOf(run[i]), p)
    && forall j :: i <= j < |run| ==> !SavesAt(devId, run, j)
  }

  function ByteFor(d: Datagram, p: nat): Byte
    requires Covers(FrameOf(d), p)
  {
    FrameOf(d)[HEADER + p - Base(FrameOf(d))]
  }

  /** Byte p of the buffer is the one the latest live packet put there, or zero when there is none. */
  ghost predicate Explained(devId: DeviceId, run: seq<Datagram>, buffer: Buffer, p: nat)
    requires p < BUFFER
  {
    || (buffer[p] == 0 && forall i :: 0 <= i < |run| ==> !Live(devId, run, i, p))
    || exists i :: && 0 <= i < |run| && Live(devId, run, i, p)
                   && Covers(FrameOf(run[i]), p) && buffer[p] == ByteFor(run[i], p)
                   && forall j :: i < j < |run| ==> !Live(devId, run, j, p)
  }

  lemma {:induction false} OwnerOfRun(s: Syner, run: seq<Datagram>)
    ensures Run(s, run).0.devId == Owner(s.devId, run)
  {
    if run != [] {
      OwnerOfRun(s, run[..|run| - 1]);
    }
  }

  /** What one packet does to one byte. */
  lemma ReceiveByte(s: Syner, d: Datagram, p: nat)
    requires p < BUFFER
    ensures var f, after := FrameOf(d), Receive(s, d).0.buffer;
      after[p] == if Accepts(s.devId, d) && IsLast(f) then 0
                  else if Accepts(s.devId, d) && Copied(d) && Covers(f, p) then ByteFor(d, p)
                  else s.buffer[p]
  {
  }

  /** Earlier packets stay live until the next save. */
  lemma LiveExtends(devId: DeviceId, run: seq<Datagram>, i: nat, p: nat)
    requires i < |run| - 1
    ensures Live(devId, run, i, p) <==> Live(devId, run[..|run| - 1], i, p) && !SavesAt(devId, run, |run| - 1)
  {
    var front := run[..|run| - 1];
    forall j | 0 <= j < |front|
      ensures AcceptedAt(devId, run, j) == AcceptedAt(devId, front, j)
      ensures SavesAt(devId, run, j) == SavesAt(devId, front, j)
    {
      assert run[..j] == front[..j];
    }
  }

  /** In every run from a clear buffer, of any packets at all, every buffer byte is explained. */
  lemma {:induction false} Provenance(devId: DeviceId, run: seq<Datagram>, p: nat)
    requires p < BUFFER
    ensures Explained(devId, run, Run(Syner(Zeros(BUFFER), devId), run).0.buffer, p)
    decreases |run|
  {
    hide Receive, Accepts, Copied, Covers, ByteFor, Live, SavesAt;
    if run != [] {
      var n := |run| - 1;
      var front, d, s := run[..n], run[n], Syner(Zeros(BUFFER), devId);
      Provenance(devId, front, p);
      OwnerOfRun(s, front);
      ReceiveByte(Run(s, front).0, d, p);
      forall i | 0 <= i < n
        ensures Live(devId, run, i, p) <==> Live(devId, front, i, p) && !SavesAt(devId, run, n)
      {
        LiveExtends(devId, run, i, p);
      }
      LiveLast(devId, run, p);
      ExplainStep(devId, run, Run(s, front).0.buffer, Run(s, run).0.buffer, p);
    }
  }

  lemma LiveLast(devId: DeviceId, run: seq<Datagram>, p: nat)
    requires run != []
    ensures var n := |run| - 1;
      && (SavesAt(devId, run, n) <==> Accepts(Owner(devId, run[..n]), run[n]) && IsLast(FrameOf(run[n])))
      && (Live(devId, run, n, p) <==>
            !SavesAt(devId, run, n) && Accepts(Owner(devId, run[..n]), run[n]) && Copied(run[n])
             && Covers(FrameOf(run[n]), p))
  {
  }

  lemma ExplainStep(devId: DeviceId, run: seq<Datagram>, before: Buffer, after: Buffer, p: nat)
    requires p < BUFFER && run != []
    requires var n := |run| - 1;
      && Explained(devId, run[..n], before, p)
      && (forall i :: 0 <= i < n ==>
            (Live(devId, run, i, p) <==> Live(devId, run[..n], i, p) && !SavesAt(devId, run, n)))
      && (SavesAt(devId, run, n) ==> !Live(devId, run, n, p) && after[p] == 0)
      && (Live(devId, run, n, p) ==> Covers(FrameOf(run[n]), p) && after[p] == ByteFor(run[n], p))
      && (!SavesAt(devId, run, n) && !Live(devId, run, n, p) ==> after[p] == before[p])
    ensures Explained(devId, run, after, p)
  {
    hide Accepts, Copied, Covers, ByteFor, SavesAt, Live;
    var n := |run| - 1;
    var front := run[..n];
    if SavesAt(devId, run, n) {
      assert forall i :: 0 <= i < |run| ==> !Live(devId, run, i, p);
    } else if !Live(devId, run, n, p) && !(before[p] == 0 && forall i :: 0 <= i < n ==> !Live(devId, front, i, p)) {
      var i :| 0 <= i < n && Live(devId, front, i, p)
               && Covers(FrameOf(front[i]), p) && before[p] == ByteFor(front[i], p)
               && forall j :: i < j < n ==> !Live(devId, front, j, p);
      assert run[i] == front[i] && Live(devId, run, i, p);
    }
  }

  /** A file's bytes, explained: the last packet's own where it covers the file, elsewhere those of the
      latest live packets before it. */
  ghost predicate FileExplained(devId: DeviceId, front: seq<Datagram>, last: Datagram, content: seq<Byte>) {
    var before, f := Run(Syner(Zeros(BUFFER), devId), front).0.buffer, FrameOf(last);
    && |content| == Clip(Base(f) + DataLength(f))
    && forall p :: 0 <= p < |content| ==>
         if Covers(f, p) then content[p] == ByteFor(last, p)
         else content[p] == before[p] && Explained(devId, front, before, p)
  }

  lemma ReceiveFile(s: Syner, d: Datagram)
    ensures var f := FrameOf(d);
      Receive(s, d).1 ==
         if Accepts(s.devId, d) && IsLast(f) then [File(PathOf(f), FileContent(Place(s.buffer, f), f))] else []
  {
  }

  lemma FileBytes(devId: DeviceId, front: seq<Datagram>, last: Datagram)
    ensures var before, f := Run(Syner(Zeros(BUFFER), devId), front).0.buffer, FrameOf(last);
      FileExplained(devId, front, last, FileContent(Place(before, f), f))
  {
    hide Explained, Run, FrameOf;
    var before, f := Run(Syner(Zeros(BUFFER), devId), front).0.buffer, FrameOf(last);
    forall p | 0 <= p < BUFFER ensures Explained(devId, front, before, p) {
      Provenance(devId, front, p);
    }
  }

  /** In every run a file is written exactly when an accepted last packet arrives, and it is explained. */
  lemma SavedFile(devId: DeviceId, run: seq<Datagram>)
    requires run != []
    ensures var n, s := |run| - 1, Syner(Zeros(BUFFER), devId);
      if SavesAt(devId, run, n) then
        exists content :: FileExplained(devId, run[..n], run[n], content)
                          && Run(s, run).1 == Run(s, run[..n]).1 + [File(PathOf(FrameOf(run[n])), content)]
      else Run(s, run).1 == Run(s, run[..n]).1
  {
    hide Receive, FileExplained, FileContent, PathOf, Place, FrameOf;
    var n, s := |run| - 1, Syner(Zeros(BUFFER), devId);
    var (before, files) := Run(s, run[..n]);
    OwnerOfRun(s, run[..n]);
    ReceiveFile(before, run[n]);
    FileBytes(devId, run[..n], run[n]);
    assert files + NO_FILES == files;
  }

  // ---------- One sender's transfer ----------

  /** Packet k of the sender, as a datagram. */
  function Sent(id: DeviceId, flag: Byte, blob: Blob, k: nat): Datagram
    requires k < Total(|blob|)
  {
    Packet(id, flag, blob, k)
  }

  /** A datagram that does not concern the transfer: a bad header, or another device's non-first packet. */
  predicate Noise(id: DeviceId, d: Datagram) {
    d == [] || d[0] != 0x56 || (PktIndex(FrameOf(d)) != 0 && SenderId(FrameOf(d)) != id)
  }

  /** A packet of the transfer other than the last. */
  ghost predicate Middle(id: DeviceId, flag: Byte, blob: Blob, d: Datagram) {
    exists k :: 0 <= k < Total(|blob|) - 1 && d == Sent(id, flag, blob, k)
  }

  /** What may come before the last packet: packets of the transfer, and noise. */
  ghost predicate Body(id: DeviceId, flag: Byte, blob: Blob, body: seq<Datagram>) {
    forall i :: 0 <= i < |body| ==> Middle(id, flag, blob, body[i]) || Noise(id, body[i])
  }

  /** The blocks of the file that occur in a run. */
  function Received(id: DeviceId, flag: Byte, blob: Blob, run: seq<Datagram>): set<nat> {
    set k: nat | k < Total(|blob|) && Sent(id, flag, blob, k) in run
  }

  /** The buffer with exactly the given blocks of the file laid over it. */
  function Over(buf: Buffer, blob: Blob, blocks: set<nat>): Buffer {
    seq(BUFFER, p requires 0 <= p < BUFFER => if p < |blob| && p / DATA in blocks then blob[p] else buf[p])
  }

  /** The file written after a transfer that found `buf` and brought `blocks`. */
  function Saved(buf: Buffer, blob: Blob, blocks: set<nat>): seq<Byte> {
    Over(buf, blob, blocks)[..|blob|]
  }

  /** Every block that did not arrive already had its bytes in the buffer. */
  ghost predicate Lucky(buf: Buffer, blob: Blob, blocks: set<nat>) {
    forall p :: 0 <= p < |blob| && p / DATA !in blocks ==> buf[p] == blob[p]
  }

  function Destination(id: DeviceId, flag: Byte): Path {
    var device := HexText.Text(id);
    if flag == 0x32 then AgpsPath(device) else BlockPath(device)
  }

  lemma SavedIntact(buf: Buffer, blob: Blob, blocks: set<nat>)
    ensures Saved(buf, blob, blocks) == blob <==> Lucky(buf, blob, blocks)
  {
    var file := Saved(buf, blob, blocks);
    if file == blob {
      forall p | 0 <= p < |blob| && p / DATA !in blocks ensures buf[p] == blob[p] {
        assert file[p] == buf[p];
      }
    }
  }

  /** A sent packet read back by the receiver. */
  lemma SentFields(id: DeviceId, flag: Byte, blob: Blob, k: nat)
    requires k < Total(|blob|)
    ensures var d := Sent(id, flag, blob, k);
      var f := FrameOf(d);
      && Good(d) && SenderId(f) == id && PktIndex(f) == k && PktTotal(f) == Total(|blob|)
      && DataLength(f) == PayloadLength(|blob|, k) && f[IDX_FLAG] == flag
      && Copied(d) && d != [] && d[0] == 0x56
      && f[HEADER..HEADER + PayloadLength(|blob|, k)] == Payload(blob, k)
  {
    var d := Sent(id, flag, blob, k);
    HeaderFields(id, flag, blob, k);
    assert SenderId(FrameOf(d)) == d[IDX_DEVICE_ID..IDX_DEVICE_ID + DEVICE_ID];
    assert FrameOf(d)[HEADER..HEADER + PayloadLength(|blob|, k)] == d[HEADER..];
  }

  /** Placing packet k adds block k. */
  lemma PlaceSent(buf: Buffer, id: DeviceId, flag: Byte, blob: Blob, blocks: set<nat>, k: nat)
    requires k < Total(|blob|)
    ensures Place(Over(buf, blob, blocks), FrameOf(Sent(id, flag, blob, k))) == Over(buf, blob, blocks + {k})
  {
    hide Sent, FrameOf, Good, Copied;
    var f := FrameOf(Sent(id, flag, blob, k));
    SentFields(id, flag, blob, k);
    var left, right := Place(Over(buf, blob, blocks), f), Over(buf, blob, blocks + {k});
    forall p | 0 <= p < BUFFER ensures left[p] == right[p] {
      assert Covers(f, p) <==> p < |blob| && p / DATA == k;
      if Covers(f, p) {
        var i := p - k * DATA;
        assert f[HEADER + i] == f[HEADER..HEADER + PayloadLength(|blob|, k)][i] == Payload(blob, k)[i] == blob[p];
      }
    }
  }

  lemma ReceiveMiddle(buf: Buffer, id: DeviceId, flag: Byte, blob: Blob, blocks: set<nat>, k: nat)
    requires k + 1 < Total(|blob|)
    ensures Receive(Syner(Over(buf, blob, blocks), id), Sent(id, flag, blob, k)) ==
            (Syner(Over(buf, blob, blocks + {k}), id), [])
  {
    hide Sent, FrameOf, Good, Copied, Place, Over;
    SentFields(id, flag, blob, k);
    PlaceSent(buf, id, flag, blob, blocks, k);
  }

  lemma ReceiveLast(buf: Buffer, id: DeviceId, flag: Byte, blob: Blob, blocks: set<nat>)
    requires blob != []
    ensures Receive(Syner(Over(buf, blob, blocks), id), Sent(id, flag, blob, Total(|blob|) - 1)) ==
            (Syner(Zeros(BUFFER), id), [File(Destination(id, flag), Saved(buf, blob, blocks + {Total(|blob|) - 1}))])
  {
    hide Sent, FrameOf, Good, Copied, Place, Over;
    var k := Total(|blob|) - 1;
    SentFields(id, flag, blob, k);
    PlaceSent(buf, id, flag, blob, blocks, k);
  }

  lemma ReceivedGrows(id: DeviceId, flag: Byte, blob: Blob, run: seq<Datagram>, d: Datagram)
    ensures Middle(id, flag, blob, d) || Noise(id, d) ==>
            forall k: nat | k < Total(|blob|) ::
              k in Received(id, flag, blob, run + [d]) <==>
              k in Received(id, flag, blob, run) || d == Sent(id, flag, blob, k)
    ensures Noise(id, d) ==> Received(id, flag, blob, run + [d]) == Received(id, flag, blob, run)
    ensures forall k: nat :: k < Total(|blob|) && d == Sent(id, flag, blob, k) ==>
              Received(id, flag, blob, run + [d]) == Received(id, flag, blob, run) + {k}
  {
    hide Sent, FrameOf, Good;
    forall k: nat | k < Total(|blob|)
      ensures Sent(id, flag, blob, k) == d ==> !Noise(id, d) && PktIndex(FrameOf(d)) == k
    {
      SentFields(id, flag, blob, k);
    }
  }

  /** The body of a transfer, in any order, with losses, duplicates and noise, over whatever the buffer
      held: the blocks received so far lie over it, nothing else has changed and nothing is written. */
  lemma {:induction false} BodyRun(buf: Buffer, id: DeviceId, flag: Byte, blob: Blob, body: seq<Datagram>)
    requires Body(id, flag, blob, body)
    ensures Run(Syner(buf, id), body) == (Syner(Over(buf, blob, Received(id, flag, blob, body)), id), [])
    decreases |body|
  {
    hide Receive, Sent, Over, Good, FrameOf;
    if body == [] {
      NothingReceived(buf, id, flag, blob);
    } else {
      var front, d := body[..|body| - 1], body[|body| - 1];
      assert body == front + [d];
      BodyRun(buf, id, flag, blob, front);
      assert NO_FILES + NO_FILES == NO_FILES;
      ReceivedGrows(id, flag, blob, front, d);
      var blocks := Received(id, flag, blob, front);
      if Noise(id, d) {
        ReceiveNoise(Syner(Over(buf, blob, blocks), id), d);
      } else {
        var k: nat :| k < Total(|blob|) - 1 && d == Sent(id, flag, blob, k);
        ReceiveMiddle(buf, id, flag, blob, blocks, k);
      }
    }
  }

  lemma NothingReceived(buf: Buffer, id: DeviceId, flag: Byte, blob: Blob)
    ensures Received(id, flag, blob, []) == {} && Over(buf, blob, {}) == buf
  {
  }

  lemma ReceiveNoise(s: Syner, d: Datagram)
    requires Noise(s.devId, d)
    ensures Receive(s, d) == (s, [])
  {
  }

  /** The owner before packet 0 does not matter, because packet 0 takes ownership. */
  lemma {:induction false} FirstTakesOver(buf: Buffer, a: DeviceId, id: DeviceId, flag: Byte, blob: Blob,
                                          run: seq<Datagram>)
    requires blob != [] && run != [] && run[0] == Sent(id, flag, blob, 0)
    ensures Run(Syner(buf, a), run) == Run(Syner(buf, id), run)
    decreases |run|
  {
    hide Sent, FrameOf, Good, Copied, Place;
    if |run| == 1 {
      SentFields(id, flag, blob, 0);
      assert run[..0] == [];
    } else {
      hide Receive;
      FirstTakesOver(buf, a, id, flag, blob, run[..|run| - 1]);
    }
  }

  /** The sender owns the loop, or its packet 0 comes first. */
  predicate Takes(a: DeviceId, id: DeviceId, flag: Byte, blob: Blob, run: seq<Datagram>) {
    a == id || (blob != [] && run != [] && run[0] == Sent(id, flag, blob, 0))
  }

  /** Replication under loss, whatever the buffer holds: when the sender owns the loop or its packet 0
      comes first, then once its last packet arrives exactly one file is written, at the path the flag
      selects under the sender's number. In it the blocks that arrived are the sender's, and the others are
      what the buffer held before, so it is the sender's file if and only if these were right already.
      The order of the packets before the last, duplicates and noise make no difference. */
  lemma LossyDelivery(buf: Buffer, a: DeviceId, id: DeviceId, flag: Byte, blob: Blob, body: seq<Datagram>)
    requires blob != [] && Body(id, flag, blob, body)
    requires Takes(a, id, flag, blob, body + [Sent(id, flag, blob, Total(|blob|) - 1)])
    ensures var run := body + [Sent(id, flag, blob, Total(|blob|) - 1)];
      var blocks := Received(id, flag, blob, run);
      && Run(Syner(buf, a), run) ==
           (Syner(Zeros(BUFFER), id), [File(Destination(id, flag), Saved(buf, blob, blocks))])
      && (Saved(buf, blob, blocks) == blob <==> Lucky(buf, blob, blocks))
  {
    hide Receive, Sent, Over, Saved, Lucky, Destination, Body, Noise, Received;
    var k := Total(|blob|) - 1;
    var last := Sent(id, flag, blob, k);
    var run := body + [last];
    assert run[..|run| - 1] == body;
    if a != id {
      FirstTakesOver(buf, a, id, flag, blob, run);
    }
    BodyRun(buf, id, flag, blob, body);
    ReceiveLast(buf, id, flag, blob, Received(id, flag, blob, body));
    ReceivedGrows(id, flag, blob, body, last);
    var blocks := Received(id, flag, blob, run);
    SavedIntact(buf, blob, blocks);
    var file := File(Destination(id, flag), Saved(buf, blob, blocks));
    assert NO_FILES + [file] == [file];
  }

  /** Order independence: if every packet arrives at least once and the last comes once and last, the
      file written is the sender's file, whatever the buffer held. */
  lemma WholeDelivery(buf: Buffer, a: DeviceId, id: DeviceId, flag: Byte, blob: Blob, body: seq<Datagram>)
    requires blob != [] && Body(id, flag, blob, body)
    requires forall k :: 0 <= k < Total(|blob|) - 1 ==> Sent(id, flag, blob, k) in body
    requires Takes(a, id, flag, blob, body + [Sent(id, flag, blob, Total(|blob|) - 1)])
    ensures var run := body + [Sent(id, flag, blob, Total(|blob|) - 1)];
      Run(Syner(buf, a), run) == (Syner(Zeros(BUFFER), id), [File(Destination(id, flag), blob)])
  {
    hide Sent, Run, Noise, Destination, Saved, Body, Takes;
    LossyDelivery(buf, a, id, flag, blob, body);
    var run := body + [Sent(id, flag, blob, Total(|blob|) - 1)];
    forall k: nat | k < Total(|blob|) ensures k in Received(id, flag, blob, run) {
      assert Sent(id, flag, blob, k) in run;
    }
  }

  /** A clear buffer: the missing blocks are zero in the file, which is the sender's if and only if they
      were all zero. */
  lemma ClearDelivery(blob: Blob, blocks: set<nat>)
    ensures forall p :: 0 <= p < |blob| ==>
              Saved(Zeros(BUFFER), blob, blocks)[p] == if p / DATA in blocks then blob[p] else 0
    ensures Saved(Zeros(BUFFER), blob, blocks) == blob <==>
            forall p :: 0 <= p < |blob| && p / DATA !in blocks ==> blob[p] == 0
  {
    SavedIntact(Zeros(BUFFER), blob, blocks);
  }

  // ---------- Two transfers ----------

  lemma {:induction false} RunJoin(s: Syner, first: seq<Datagram>, second: seq<Datagram>)
    ensures var (m, files) := Run(s, first);
      Run(s, first + second) == (Run(m, second).0, files + Run(m, second).1)
    decreases |second|
  {
    hide Receive;
    var (m, files) := Run(s, first);
    if second == [] {
      assert first + second == first && files + NO_FILES == files;
    } else {
      var front, d := second[..|second| - 1], second[|second| - 1];
      RunJoin(s, first, front);
      assert (first + second)[..|first + second| - 1] == first + front && (first + second)[|first + second| - 1] == d;
      var (before, written) := Run(m, front);
      assert files + written + Receive(before, d).1 == files + (written + Receive(before, d).1);
    }
  }

  /** A transfer that is cut off before its last packet leaves its blocks in the buffer, and the next
      sender's file gets them: each block of the second file that does not arrive is filled with the first
      sender's bytes, where its packets arrived, under the second sender's name. */
  lemma CutOffTransfer(a: DeviceId, id1: DeviceId, flag1: Byte, blob1: Blob, body1: seq<Datagram>,
                       id2: DeviceId, flag2: Byte, blob2: Blob, body2: seq<Datagram>)
    requires Body(id1, flag1, blob1, body1) && Takes(a, id1, flag1, blob1, body1)
    requires blob2 != [] && Body(id2, flag2, blob2, body2)
    requires Takes(id1, id2, flag2, blob2, body2 + [Sent(id2, flag2, blob2, Total(|blob2|) - 1)])
    ensures var run2 := body2 + [Sent(id2, flag2, blob2, Total(|blob2|) - 1)];
      var blocks1, blocks2 := Received(id1, flag1, blob1, body1), Received(id2, flag2, blob2, run2);
      var file := Saved(Over(Zeros(BUFFER), blob1, blocks1), blob2, blocks2);
      && Run(Syner(Zeros(BUFFER), a), body1 + run2).1 == [File(Destination(id2, flag2), file)]
      && |file| == |blob2|
      && forall p :: 0 <= p < |blob2| ==> file[p] == if p / DATA in blocks2 then blob2[p]
                                          else if p < |blob1| && p / DATA in blocks1 then blob1[p] else 0
  {
    hide Sent, Run, Body, Noise, Destination, Lucky, Received;
    if a != id1 {
      FirstTakesOver(Zeros(BUFFER), a, id1, flag1, blob1, body1);
    }
    BodyRun(Zeros(BUFFER), id1, flag1, blob1, body1);
    var run2 := body2 + [Sent(id2, flag2, blob2, Total(|blob2|) - 1)];
    var left := Over(Zeros(BUFFER), blob1, Received(id1, flag1, blob1, body1));
    LossyDelivery(left, id1, id2, flag2, blob2, body2);
    RunJoin(Syner(Zeros(BUFFER), a), body1, run2);
    var file := File(Destination(id2, flag2), Saved(left, blob2, Received(id2, flag2, blob2, run2)));
    assert NO_FILES + [file] == [file];
  }

  /** Three blocks of one value. */
  function Uniform(v: Byte): Blob {
    seq(3 * DATA, _ => v)
  }

  /** It happens: the second sender's packet 1 is lost, and its file has the first sender's block there. */
  lemma ForeignBlock(id1: DeviceId, id2: DeviceId, flag: Byte)
    ensures var first := [Sent(id1, flag, Uniform(1), 0), Sent(id1, flag, Uniform(1), 1)];
      var second := [Sent(id2, flag, Uniform(2), 0), Sent(id2, flag, Uniform(2), 2)];
      Run(Syner(Zeros(BUFFER), Zeros(DEVICE_ID)), first + second).1 ==
      [File(Destination(id2, flag), Uniform(2)[..DATA] + Uniform(1)[..DATA] + Uniform(2)[..DATA])]
  {
    hide Sent, FrameOf, Good, Run, Noise, Destination, Received, Lucky;
    var blob1, blob2 := Uniform(1), Uniform(2);
    var body1, body2 := [Sent(id1, flag, blob1, 0), Sent(id1, flag, blob1, 1)], [Sent(id2, flag, blob2, 0)];
    var last := Sent(id2, flag, blob2, 2);
    ReceivedThese(id1, flag, blob1, body1, {0, 1});
    ReceivedThese(id2, flag, blob2, body2 + [last], {0, 2});
    CutOffTransfer(Zeros(DEVICE_ID), id1, flag, blob1, body1, id2, flag, blob2, body2);
    var file := Saved(Over(Zeros(BUFFER), blob1, {0, 1}), blob2, {0, 2});
    assert file == blob2[..DATA] + blob1[..DATA] + blob2[..DATA];
    assert body2 + [last] == [Sent(id2, flag, blob2, 0), last];
  }

  lemma ReceivedThese(id: DeviceId, flag: Byte, blob: Blob, run: seq<Datagram>, ks: set<nat>)
    requires forall k :: k in ks ==> k < Total(|blob|) && Sent(id, flag, blob, k) in run
    requires forall i :: 0 <= i < |run| ==>
               exists k :: k in ks && k < Total(|blob|) && run[i] == Sent(id, flag, blob, k)
    ensures Received(id, flag, blob, run) == ks
  {
    hide Sent, FrameOf;
    forall k | k in Received(id, flag, blob, run) ensures k in ks {
      var i :| 0 <= i < |run| && run[i] == Sent(id, flag, blob, k);
      var j :| j in ks && j < Total(|blob|) && run[i] == Sent(id, flag, blob, j);
      SentFields(id, flag, blob, k);
      SentFields(id, flag, blob, j);
    }
  }

  /** A repeated last packet overwrites the saved file from a cleared buffer: all other blocks become
      zero, so the saved file survives only if they were zero or there are none. */
  lemma RepeatedLast(id: DeviceId, flag: Byte, blob: Blob)
    requires blob != []
    ensures var k := Total(|blob|) - 1;
      var file := Zeros(k * DATA) + Payload(blob, k);
      && Receive(Syner(Zeros(BUFFER), id), Sent(id, flag, blob, k)) ==
           (Syner(Zeros(BUFFER), id), [File(Destination(id, flag), file)])
      && (file == blob <==> blob[..k * DATA] == Zeros(k * DATA))
  {
    hide Receive, Sent, Destination;
    var k := Total(|blob|) - 1;
    NothingReceived(Zeros(BUFFER), id, flag, blob);
    ReceiveLast(Zeros(BUFFER), id, flag, blob, {});
    assert {} + {k} == {k};
    var file := Zeros(k * DATA) + Payload(blob, k);
    assert Saved(Zeros(BUFFER), blob, {k}) == file;
    assert blob == blob[..k * DATA] + Payload(blob, k);
    assert file[..k * DATA] == Zeros(k * DATA);
  }

  /** A packet of the transfer other than packet 0. */
  ghost predicate Later(id: DeviceId, flag: Byte, blob: Blob, d: Datagram) {
    exists k :: 0 < k < Total(|blob|) && d == Sent(id, flag, blob, k)
  }

  /** While another device owns the loop, a sender's packets other than packet 0 have no effect at all. */
  lemma {:induction false} OwnedByAnother(s: Syner, id: DeviceId, flag: Byte, blob: Blob, run: seq<Datagram>)
    requires s.devId != id
    requires forall i :: 0 <= i < |run| ==> Later(id, flag, blob, run[i])
    ensures Run(s, run) == (s, [])
    decreases |run|
  {
    hide Sent, FrameOf;
    if run != [] {
      var front, d := run[..|run| - 1], run[|run| - 1];
      OwnedByAnother(s, id, flag, blob, front);
      var k :| 0 < k < Total(|blob|) && d == Sent(id, flag, blob, k);
      SentFields(id, flag, blob, k);
      assert NO_FILES + NO_FILES == NO_FILES;
    }
  }
}
