/** Uploads on a connection that also carries other packets: what these leave in the packet buffer and,
    for downloads, in the block buffer. */
module BlockMixed {
  import opened Bytes
  import opened Packetiser
  import opened BlockFormat
  import opened BlockReceive
  import HexText
  import Wire

  // ---------- Saves before the header has come ----------

  /** A read that leaves fewer than HEADER bytes of a packet saves exactly when the header fields, as far as
      they have not come those an earlier packet left, show a last packet of negative length, not too
      short for the bytes read. The low byte of the length is always a left one. */
  lemma EarlyRead(b: Block, bytes: seq<Byte>)
    requires b.Valid() && 0 < |bytes| <= PACKET - b.index && b.index + |bytes| < HEADER
    ensures var f, n := NextFrame(b, bytes), b.index + |bytes|;
      && (Read(b, bytes).1 != [] <==>
            f[0] == HDR_BLOCK_DATA_RECV && IsLast(f) && f[IDX_LENGTH] == 0xFF
            && 0xE0 <= f[IDX_LENGTH + 1] <= 0xE0 + n)
      && f[IDX_LENGTH + 1] == b.packet[IDX_LENGTH + 1]
  {
    hide Place, SaveOf, IsLast;
  }

  /** It happens: after this heartbeat one arriving byte overwrites the device's file with zeros. */
  lemma FalseSave(disk: Disk, beat: seq<Byte>)
    requires |beat| == 32 && beat[0] == 0x48 && beat[13] == 1 && beat[29] == 2 && beat[30] == 0xFF && beat[31] == 0xE0
    ensures var device := HexText.Text(beat[1..9]);
      Serve(disk, NEW_CONNECTION, [beat, [0x56]]).saved == [Saved(File(BlockPath(device), Zeros(960)), device, 0x32)]
  {
    hide HexText.Text, Serve, Callback;
    OtherPacket(disk, NEW_CONNECTION, beat);
    var c := Callback(disk, NEW_CONNECTION, beat);
    assert c.block.packet[IDX_DEVICE_ID..IDX_DEVICE_ID + DEVICE_ID] == beat[IDX_DEVICE_ID..IDX_DEVICE_ID + DEVICE_ID];
    assert Zeros(BUFFER)[..960] == Zeros(960);
    LastByte(disk, c);
    ServeOne(disk, NEW_CONNECTION, beat);
    ServeOne(disk, c, [HDR_BLOCK_DATA_RECV]);
    ServeJoin(disk, NEW_CONNECTION, [beat], [[HDR_BLOCK_DATA_RECV]]);
    assert [beat] + [[HDR_BLOCK_DATA_RECV]] == [beat, [HDR_BLOCK_DATA_RECV]];
  }

  // ---------- Other packets ----------

  /** A packet of another kind, in a callback of its own. */
  predicate IsOther(q: seq<Byte>) {
    0 < |q| <= PACKET && q[0] != HDR_BLOCK_DATA_RECV
  }

  predicate AllOther(others: seq<seq<Byte>>) {
    forall i :: 0 <= i < |others| ==> IsOther(others[i])
  }

  /** Between two packets, with nothing left to read. */
  predicate Between(c: Connection) {
    c.block.Valid() && c.block.index == 0 && c.input == []
  }

  /** What another packet leaves in the packet buffer: itself, and behind it what was there. */
  function Behind(q: seq<Byte>, left: seq<Byte>): (f: Frame)
    requires |left| == PACKET && |q| <= PACKET
    ensures |f| == PACKET
  {
    q + left[|q|..]
  }

  /** Another packet saves nothing and starts no block packet; a download request overwrites the front of
      the block buffer. */
  lemma OtherPacket(disk: Disk, c: Connection, q: seq<Byte>)
    requires Between(c) && IsOther(q)
    ensures var r, f := Callback(disk, c, q), Behind(q, c.block.packet);
      && Between(r) && r.saved == c.saved && r.block.packet == f
      && if IsDownload(f, |q|) then
           var file := disk(|c.downloads|, PathAsked(f));
           && r.block.buffer == Overlay(c.block.buffer, SenderId(f), file)
           && r.downloads == c.downloads + [Download(PathAsked(f), Packets(SenderId(f), 0, file))]
         else r.block.buffer == c.block.buffer && r.downloads == c.downloads
  {
    hide Overlay, PathAsked, Packets, SenderId;
    var x := c.(input := c.input + q);
    assert x.input == q && q[..|q|] == q;
    assert NextFrame(c.block, q) == Behind(q, c.block.packet);
    assert c.saved + [] == c.saved;
    DrainDone(disk, Pass(disk, x));
  }

  /** The file a download request names by its byte 13. */
  function PathNamed(id: DeviceId, which: Byte): Path {
    if which == 0x61 then AgpsPath(HexText.Text(id)) else BlockPath(HexText.Text(id))
  }

  lemma RequestFields(q: seq<Byte>, left: seq<Byte>)
    requires |q| == 16 && q[0] == 0x44 && |left| == PACKET
    ensures var f := Behind(q, left);
      IsDownload(f, 16) && SenderId(f) == q[1..9] && PathAsked(f) == PathNamed(q[1..9], q[13])
  {
    assert Behind(q, left)[1..9] == q[1..9];
  }

  /** A download request that arrives between packets is answered with the packets of the file it names, which
      then fill the front of the block buffer. */
  lemma DownloadAnswered(disk: Disk, c: Connection, id: DeviceId, gap: seq<Byte>, which: Byte, rest: seq<Byte>)
    requires Between(c) && |gap| == 4 && |rest| == 2
    ensures var path := PathNamed(id, which);
      var file, r := disk(|c.downloads|, path), Callback(disk, c, Wire.DownloadRequest(id, gap, which, rest));
      && path.Name() == (if which == 0x61 then "/usr/RServer/agps_data/" + HexText.Text(id) + "_agps.dat"
                         else "/usr/RServer/block_data/" + HexText.Text(id))
      && r.saved == c.saved && r.downloads == c.downloads + [Download(path, Packets(id, 0, file))]
      && r.block.buffer == Overlay(c.block.buffer, id, file)
  {
    var q := Wire.DownloadRequest(id, gap, which, rest);
    assert q[1..9] == id;
    RequestFields(q, c.block.packet);
    hide PathAsked, SenderId, Overlay, Packets, HexText.Text;
    OtherPacket(disk, c, q);
  }

  /** What a run of other packets leaves in a clear packet buffer. */
  function LeftBy(others: seq<seq<Byte>>): (left: seq<Byte>)
    requires AllOther(others)
    ensures |left| == PACKET
  {
    if others == [] then Zeros(PACKET) else Behind(others[|others| - 1], LeftBy(others[..|others| - 1]))
  }

  lemma {:induction false} AfterOthers(disk: Disk, others: seq<seq<Byte>>)
    requires AllOther(others)
    ensures var c := Serve(disk, NEW_CONNECTION, others);
      Between(c) && c.saved == [] && c.block.packet == LeftBy(others)
    decreases |others|
  {
    hide Callback, Behind;
    if others != [] {
      AfterOthers(disk, others[..|others| - 1]);
      OtherPacket(disk, Serve(disk, NEW_CONNECTION, others[..|others| - 1]), others[|others| - 1]);
    }
  }

  /** An upload after any other packets on its connection: the file is saved, whole, when the final byte
      arrives, and that is the last save. It is the only one if and only if no arrival ends where the first
      packet, in front of what the others left, is early; so always, if they left a byte below 0xE0 where
      the low byte of the length comes. */
  lemma UploadAfterOthers(disk: Disk, id: DeviceId, flag: Byte, blob: Blob, others: seq<seq<Byte>>,
                          chunks: seq<seq<Byte>>)
    requires blob != [] && AllOther(others) && Flatten(chunks) == Stream(id, flag, blob)
    ensures var saved := Serve(disk, NEW_CONNECTION, others + chunks).saved;
      && saved != [] && saved[|saved| - 1] == Upload(id, blob)
      && (saved == [Upload(id, blob)] <==> NeverEarly(LeftBy(others), 0, Total(|blob|), chunks))
      && (LeftBy(others)[IDX_LENGTH + 1] < 0xE0 ==> saved == [Upload(id, blob)])
  {
    hide Serve, Stream, AllSaves, Upload, NeverEarly, LeftBy;
    AfterOthers(disk, others);
    ServeJoin(disk, NEW_CONNECTION, others, chunks);
    var c := Serve(disk, NEW_CONNECTION, others);
    var st := Start(c.block.buffer, c.block.packet, 0);
    assert blob[..0] == [] && Stream(id, flag, blob)[0..] == Stream(id, flag, blob);
    TransferServe(disk, st, id, flag, blob, c, chunks);
    SavesInAll(st, id, flag, blob, chunks);
    if LeftBy(others)[IDX_LENGTH + 1] < 0xE0 {
      CleanNeverEarly(LeftBy(others), 0, Total(|blob|), chunks);
    }
  }

  // ---------- Between two packets of an upload ----------

  /** The packets of two files that agree from block k on are the same from packet k on. */
  lemma SameRest(id: DeviceId, flag: Byte, a: Blob, b: Blob, k: nat)
    requires |a| == |b| && k < Total(|a|) && a[k * DATA..] == b[k * DATA..]
    ensures k * PACKET < |Stream(id, flag, a)| == |Stream(id, flag, b)|
    ensures Stream(id, flag, a)[k * PACKET..] == Stream(id, flag, b)[k * PACKET..]
  {
    hide Stream;
    StreamLength(id, flag, a);
    StreamLength(id, flag, b);
    PacketAt(id, flag, a, k);
    var s, t := Stream(id, flag, a), Stream(id, flag, b);
    forall p | k * PACKET <= p < |s| ensures s[p] == t[p] {
      ByteOfStream(id, flag, a, p);
      ByteOfStream(id, flag, b, p);
      SamePacket(id, flag, a, b, k, p / PACKET);
    }
    SameFrom(s, t, k * PACKET);
  }

  lemma SameFrom(s: seq<Byte>, t: seq<Byte>, n: nat)
    requires n <= |s| == |t| && forall p :: n <= p < |s| ==> s[p] == t[p]
    ensures s[n..] == t[n..]
  {
  }

  lemma SamePacket(id: DeviceId, flag: Byte, a: Blob, b: Blob, k: nat, j: nat)
    requires |a| == |b| && k <= j < Total(|a|) && a[k * DATA..] == b[k * DATA..]
    ensures Packet(id, flag, a, j) == Packet(id, flag, b, j)
  {
    hide Header;
    var n := PayloadLength(|a|, j);
    SubSlice(a, k * DATA, |a|, (j - k) * DATA, (j - k) * DATA + n);
    SubSlice(b, k * DATA, |b|, (j - k) * DATA, (j - k) * DATA + n);
  }

  /** What the end of an upload makes of the block buffer it finds: before packet k the buffer's bytes stay. */
  function Mended(buffer: Buffer, blob: Blob, k: nat): (file: Blob)
    requires k < Total(|blob|)
    ensures |file| == |blob|
  {
    buffer[..k * DATA] + blob[k * DATA..]
  }

  /** The packets of an upload from packet k on, over whatever the two buffers hold: the blocks before k in
      the file that is saved are those found in the block buffer. */
  lemma RestOfUpload(disk: Disk, x: Connection, id: DeviceId, flag: Byte, blob: Blob, k: nat, chunks: seq<seq<Byte>>)
    requires Between(x) && k < Total(|blob|) && k * PACKET <= |Stream(id, flag, blob)|
    requires Flatten(chunks) == Stream(id, flag, blob)[k * PACKET..]
    ensures var saved, upload := Serve(disk, x, chunks).saved, Upload(id, Mended(x.block.buffer, blob, k));
      && |saved| > |x.saved| && x.saved <= saved && saved[|saved| - 1] == upload
      && (saved == x.saved + [upload] <==> NeverEarly(x.block.packet, k, Total(|blob|), chunks))
  {
    hide Serve, Stream, AllSaves, Upload, NeverEarly;
    var file := Mended(x.block.buffer, blob, k);
    assert file[k * DATA..] == blob[k * DATA..];
    SameRest(id, flag, blob, file, k);
    var st := Start(x.block.buffer, x.block.packet, k);
    assert file[..k * DATA] == st.buffer[..k * DATA];
    TransferServe(disk, st, id, flag, file, x, chunks);
    SavesInAll(st, id, flag, file, chunks);
    var all := AllSaves(st, id, flag, file, chunks);
    assert (x.saved + all)[|x.saved|..] == all && (x.saved + [Upload(id, file)])[|x.saved|..] == [Upload(id, file)];
  }

  /** A download between two packets of an upload, answered from the same buffer: the file saved begins with
      the packets of the file that was sent, and is the uploaded one if and only if these agree with it as
      far as they overwrite the blocks before packet k. */
  lemma DownloadBetween(disk: Disk, id: DeviceId, flag: Byte, blob: Blob, k: nat, first: seq<seq<Byte>>, q: seq<Byte>,
                        rest: seq<seq<Byte>>)
    requires 0 < k < Total(|blob|) && k * PACKET <= |Stream(id, flag, blob)|
    requires Flatten(first) == Stream(id, flag, blob)[..k * PACKET]
    requires Flatten(rest) == Stream(id, flag, blob)[k * PACKET..]
    requires |q| == 16 && q[0] == 0x44
    ensures var id2: DeviceId := q[1..9];
      var s := Stream(id2, 0, disk(0, PathNamed(id2, q[13])));
      var n := Min(|s|, k * DATA);
      && 0 <= n <= |s| && n <= |blob|
      && Serve(disk, NEW_CONNECTION, first + [q] + rest).saved == [Upload(id, s[..n] + blob[n..])]
      && (s[..n] + blob[n..] == blob <==> s[..n] == blob[..n])
  {
    hide Serve, Stream, AllSaves, Upload, NeverEarly, PathAsked, PathNamed, SenderId;
    var f := Behind(q, Zeros(PACKET));
    RequestFields(q, Zeros(PACKET));
    var file := disk(0, PathAsked(f));
    var s := Stream(SenderId(f), 0, file);
    var n := Min(|s|, k * DATA);
    FirstPackets(disk, id, flag, blob, k, first);
    var c := Serve(disk, NEW_CONNECTION, first);
    OtherPacket(disk, c, q);
    var x := Callback(disk, c, q);
    ServeOne(disk, c, q);
    ServeJoin(disk, NEW_CONNECTION, first, [q]);
    ServeJoin(disk, NEW_CONNECTION, first + [q], rest);
    RestOfUpload(disk, x, id, flag, blob, k, rest);
    CleanNeverEarly(x.block.packet, k, Total(|blob|), rest);
    OverlaidFile(c.block.buffer, SenderId(f), file, blob, k);
    assert blob == blob[..n] + blob[n..];
    assert s[..n] + blob[n..] == blob ==> (s[..n] + blob[n..])[..n] == blob[..n];
  }

  lemma OverlaidFile(buffer: Buffer, id: DeviceId, file: Stored, blob: Blob, k: nat)
    requires k < Total(|blob|) && buffer[..k * DATA] == blob[..k * DATA]
    ensures var s := Stream(id, 0, file);
      var n := Min(|s|, k * DATA);
      0 <= n <= |s| && n <= |blob| && Mended(Overlay(buffer, id, file), blob, k) == s[..n] + blob[n..]
  {
    hide Stream;
    StreamLength(id, 0, file);
    var s := Stream(id, 0, file);
    var n := Min(|s|, k * DATA);
    var left, right := Mended(Overlay(buffer, id, file), blob, k), s[..n] + blob[n..];
    forall p | 0 <= p < |blob| ensures left[p] == right[p] {
      assert p < k * DATA ==> buffer[p] == buffer[..k * DATA][p] == blob[p];
    }
  }

  lemma ServeOne(disk: Disk, c: Connection, q: seq<Byte>)
    requires c.block.Valid()
    ensures Serve(disk, c, [q]) == Callback(disk, c, q)
  {
    hide Callback;
    assert [q][..0] == [];
  }

  /** After the first k packets of an upload on a new connection. */
  lemma FirstPackets(disk: Disk, id: DeviceId, flag: Byte, blob: Blob, k: nat, chunks: seq<seq<Byte>>)
    requires 0 < k < Total(|blob|) && k * PACKET <= |Stream(id, flag, blob)|
    requires Flatten(chunks) == Stream(id, flag, blob)[..k * PACKET]
    ensures var c := Serve(disk, NEW_CONNECTION, chunks);
      && Between(c) && c.saved == [] && c.downloads == [] && c.block.packet == Zeros(PACKET)
      && c.block.buffer == blob[..k * DATA] + Zeros(BUFFER)[k * DATA..]
  {
    hide Serve, Stream, AllSaves, NeverEarly;
    CleanIsReady(id, flag, blob);
    TransferServe(disk, CLEAN, id, flag, blob, NEW_CONNECTION, chunks);
    AfterMore(CLEAN, id, flag, blob, k, 0);
    SavesBefore(CLEAN, id, flag, blob, chunks);
    CleanNeverEarly(CLEAN.packet, 0, Total(|blob|), chunks);
    assert Packet(id, flag, blob, k)[..0] + Zeros(PACKET)[0..] == Zeros(PACKET);
  }

  lemma LastByte(disk: Disk, c: Connection)
    requires Between(c) && c.saved == []
    requires var left := c.block.packet;
      && left[IDX_INDEX] == 1 && left[IDX_TOTAL] == 2
      && left[IDX_LENGTH] == 0xFF && left[IDX_LENGTH + 1] == 0xE0
    ensures var device := HexText.Text(c.block.packet[IDX_DEVICE_ID..IDX_DEVICE_ID + DEVICE_ID]);
      Callback(disk, c, [HDR_BLOCK_DATA_RECV]).saved ==
      [Saved(File(BlockPath(device), c.block.buffer[..960]), device, MULTICAST_TYPE_AGPS)]
  {
    hide HexText.Text;
    var q: seq<Byte> := [HDR_BLOCK_DATA_RECV];
    var x := c.(input := c.input + q);
    assert x.input == q && q[..1] == q;
    var f := NextFrame(c.block, q);
    assert SenderId(f) == c.block.packet[IDX_DEVICE_ID..IDX_DEVICE_ID + DEVICE_ID];
    PlaceNothing(c.block.buffer, f);
    hide Place;
    DrainDone(disk, Pass(disk, x));
  }
}
