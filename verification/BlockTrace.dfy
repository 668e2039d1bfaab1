/** Where the bytes of uploads come from, for any bytes arriving in any pieces. */
module BlockTrace {
  import opened Bytes
  import opened Packetiser
  import opened BlockFormat
  import opened BlockReceive

  /** One pass of the loop: the packet buffer as the switch sees it, the place in the arrived bytes where
      its packet begins, how many bytes of it have come, and the file a download would find. */
  datatype Entry = Entry(frame: Frame, at: nat, length: nat, file: Stored) {
    function End(): nat {
      at + length
    }

    predicate Sends() {
      IsDownload(frame, length)
    }

    /** A packet is placed when it is full and before the last, or last and complete. */
    predicate Places() {
      frame[0] == HDR_BLOCK_DATA_RECV && if IsLast(frame) then Complete(length, frame) else length == PACKET
    }

    predicate Saves() {
      Places() && IsLast(frame)
    }

    /** The packet buffer is cleared for the next packet. */
    predicate Clears() {
      frame[0] == HDR_BLOCK_DATA_RECV && length == PACKET && !IsLast(frame)
    }

    /** The next bytes belong to the same packet. */
    predicate GoesOn() {
      frame[0] == HDR_BLOCK_DATA_RECV && !Clears()
    }
  }

  // ---------- What a log of passes amounts to ----------

  /** The block buffer after the passes of a log, from a clear one. */
  function BufferOf(log: seq<Entry>): Buffer {
    if log == [] then Zeros(BUFFER)
    else
      var before, e := BufferOf(log[..|log| - 1]), log[|log| - 1];
      if e.Sends() then Overlay(before, SenderId(e.frame), e.file)
      else if e.Places() then Place(before, e.frame)
      else before
  }

  function SavesOf(log: seq<Entry>): seq<Saved> {
    if log == [] then []
    else
      var e := log[|log| - 1];
      SavesOf(log[..|log| - 1]) + if e.Saves() then [SaveOf(BufferOf(log), e.frame)] else []
  }

  function DownloadsOf(log: seq<Entry>): seq<Download> {
    if log == [] then []
    else
      var e := log[|log| - 1];
      DownloadsOf(log[..|log| - 1]) +
      if e.Sends() then [Download(PathAsked(e.frame), Packets(SenderId(e.frame), 0, e.file))] else []
  }

  /** What the packet buffer holds after the log. */
  function Holding(log: seq<Entry>): (left: seq<Byte>) {
    if log == [] || log[|log| - 1].Clears() then Zeros(PACKET) else log[|log| - 1].frame
  }

  /** How many bytes have been read. */
  function EndOf(log: seq<Entry>): nat {
    if log == [] then 0 else log[|log| - 1].End()
  }

  /** Where the packet begins to which the next bytes belong. */
  function NextAt(log: seq<Entry>): nat {
    if log != [] && log[|log| - 1].GoesOn() then log[|log| - 1].at else EndOf(log)
  }

  /** The frame begins with bytes that arrived, consecutive ones. */
  predicate Shown(stream: seq<Byte>, e: Entry) {
    && |e.frame| == PACKET && 0 < e.length <= PACKET && e.End() <= |stream|
    && e.frame[..e.length] == stream[e.at..e.End()]
  }

  /** The log is that of reading `stream`: every pass reads on where the one before ended, and behind what has
      come of a packet lies what the pass before left in the packet buffer. */
  predicate Traces(disk: Disk, stream: seq<Byte>, log: seq<Entry>) {
    log != [] ==>
      var front, e := log[..|log| - 1], log[|log| - 1];
      && Traces(disk, stream, front) && Shown(stream, e)
      && e.at == NextAt(front) && EndOf(front) < e.End()
      && |Holding(front)| == PACKET && e.frame[e.length..] == Holding(front)[e.length..]
      && e.file == disk(|DownloadsOf(front)|, PathAsked(e.frame))
  }

  /** The connection has made the passes of the log, and no others. */
  ghost predicate Logged(disk: Disk, c: Connection, stream: seq<Byte>, log: seq<Entry>) {
    && Traces(disk, stream, log) && EndOf(log) <= |stream| && c.input == stream[EndOf(log)..]
    && NextAt(log) <= EndOf(log) && c.block == Block(BufferOf(log), Holding(log), EndOf(log) - NextAt(log))
    && c.block.Valid() && c.saved == SavesOf(log) && c.downloads == DownloadsOf(log)
  }

  // ---------- Every connection has one ----------

  /** Reading, in terms of the entry it adds. */
  lemma ReadEntry(b: Block, bytes: seq<Byte>, e: Entry)
    requires b.Valid() && 0 < |bytes| <= PACKET - b.index
    requires e.frame == NextFrame(b, bytes) && e.length == b.index + |bytes|
    ensures var (after, saved) := Read(b, bytes);
      && after.buffer == (if e.Places() then Place(b.buffer, e.frame) else b.buffer)
      && after.packet == (if e.Clears() then Zeros(PACKET) else e.frame)
      && after.index == (if e.GoesOn() then e.length else if e.Clears() then 0 else b.index)
      && saved == (if e.Saves() then [SaveOf(after.buffer, e.frame)] else [])
  {
    hide Place, SaveOf, PktIndex, PktTotal, DataLength;
  }

  /** The bytes of the current packet that have come. */
  lemma Current(disk: Disk, c: Connection, stream: seq<Byte>, log: seq<Entry>)
    requires Logged(disk, c, stream, log)
    ensures c.block.Valid() && c.block.packet == Holding(log) && c.block.index == EndOf(log) - NextAt(log)
    ensures EndOf(log) <= |stream| && c.input == stream[EndOf(log)..] && c.downloads == DownloadsOf(log)
    ensures c.block.packet[..c.block.index] == stream[NextAt(log)..EndOf(log)]
    ensures c.block.index > 0 ==> c.block.packet[0] == HDR_BLOCK_DATA_RECV
  {
    hide BufferOf, SavesOf, DownloadsOf, IsLast, Complete;
    if c.block.index == 0 {
      assert stream[NextAt(log)..EndOf(log)] == [];
    }
  }

  function NextEntry(disk: Disk, c: Connection, log: seq<Entry>): (e: Entry)
    requires c.block.Valid() && Nbytes(c) > 0
  {
    var f := NextFrame(c.block, c.input[..Nbytes(c)]);
    Entry(f, NextAt(log), c.block.index + Nbytes(c), disk(|c.downloads|, PathAsked(f)))
  }

  /** A frame put together from the part of a packet that has come, n more bytes and the rest. */
  lemma Joined(b: Block, input: seq<Byte>, n: nat, stream: seq<Byte>, at: nat)
    requires b.Valid() && 0 < n <= PACKET - b.index && n <= |input| && at + b.index <= |stream|
    requires b.packet[..b.index] == stream[at..at + b.index] && input == stream[at + b.index..]
    ensures var f, length := NextFrame(b, input[..n]), b.index + n;
      && f[length..] == b.packet[length..]
      && at + length <= |stream| && f[..length] == stream[at..at + length] && input[n..] == stream[at + length..]
  {
    var f, i := NextFrame(b, input[..n]), b.index;
    assert f[..i + n] == b.packet[..i] + input[..n];
    assert stream[at..at + i + n] == stream[at..at + i] + stream[at + i..][..n];
  }

  lemma FirstByte(c: Connection)
    requires c.block.Valid() && Nbytes(c) > 0
    ensures c.block.index > 0 ==> NextFrame(c.block, c.input[..Nbytes(c)])[0] == c.block.packet[0]
  {
  }

  lemma NextShown(disk: Disk, c: Connection, stream: seq<Byte>, log: seq<Entry>)
    requires Logged(disk, c, stream, log) && Nbytes(c) > 0
    ensures var e := NextEntry(disk, c, log);
      && Shown(stream, e) && e.at == NextAt(log) && e.End() > EndOf(log)
      && |Holding(log)| == PACKET && e.frame[e.length..] == Holding(log)[e.length..]
      && e.file == disk(|c.downloads|, PathAsked(e.frame)) && c.downloads == DownloadsOf(log)
      && c.input[Nbytes(c)..] == stream[e.End()..]
      && (c.block.index > 0 ==> e.frame[0] == HDR_BLOCK_DATA_RECV)
  {
    Current(disk, c, stream, log);
    hide Logged, DownloadsOf, Holding, EndOf, NextAt, PathAsked, NextFrame, Nbytes;
    var e, n := NextEntry(disk, c, log), Nbytes(c);
    FirstByte(c);
    Joined(c.block, c.input, n, stream, NextAt(log));
    assert e.at == NextAt(log) && e.length == c.block.index + n && e.frame == NextFrame(c.block, c.input[..n]);
    hide NextEntry;
  }

  /** One pass, in terms of its entry. */
  lemma PassEntry(disk: Disk, c: Connection, log: seq<Entry>)
    requires c.block.Valid() && Nbytes(c) > 0
    requires c.block.index > 0 ==> NextFrame(c.block, c.input[..Nbytes(c)])[0] == HDR_BLOCK_DATA_RECV
    ensures var e, r := NextEntry(disk, c, log), Pass(disk, c);
      && r.block.buffer == (if e.Sends() then Overlay(c.block.buffer, SenderId(e.frame), e.file)
                            else if e.Places() then Place(c.block.buffer, e.frame) else c.block.buffer)
      && r.block.packet == (if e.Clears() then Zeros(PACKET) else e.frame)
      && r.block.index == (if e.GoesOn() then e.length else 0)
      && r.input == c.input[Nbytes(c)..]
      && r.saved == c.saved + (if e.Saves() then [SaveOf(r.block.buffer, e.frame)] else [])
      && r.downloads == c.downloads +
           (if e.Sends() then [Download(PathAsked(e.frame), Packets(SenderId(e.frame), 0, e.file))] else [])
  {
    hide Read, Overlay, Place, SaveOf, IsLast, Complete, PathAsked, SenderId, Packets, NextFrame;
    ReadEntry(c.block, c.input[..Nbytes(c)], NextEntry(disk, c, log));
    assert c.saved + [] == c.saved && c.downloads + [] == c.downloads;
  }

  /** What one more entry adds to the sums over a log. */
  lemma OneMore(log: seq<Entry>, e: Entry)
    ensures var all := log + [e];
      && BufferOf(all) == (if e.Sends() then Overlay(BufferOf(log), SenderId(e.frame), e.file)
                           else if e.Places() then Place(BufferOf(log), e.frame) else BufferOf(log))
      && SavesOf(all) == SavesOf(log) + (if e.Saves() then [SaveOf(BufferOf(all), e.frame)] else [])
      && DownloadsOf(all) == DownloadsOf(log) +
           (if e.Sends() then [Download(PathAsked(e.frame), Packets(SenderId(e.frame), 0, e.file))] else [])
      && Holding(all) == (if e.Clears() then Zeros(PACKET) else e.frame)
      && EndOf(all) == e.End() && NextAt(all) == if e.GoesOn() then e.at else e.End()
  {
    hide Overlay, Place, SaveOf, IsLast, Complete, PathAsked, SenderId, Packets;
    assert (log + [e])[..|log|] == log;
  }

  lemma TracesOne(disk: Disk, stream: seq<Byte>, log: seq<Entry>, e: Entry)
    requires Traces(disk, stream, log) && Shown(stream, e)
    requires e.at == NextAt(log) && EndOf(log) < e.End()
    requires |Holding(log)| == PACKET && e.frame[e.length..] == Holding(log)[e.length..]
    requires e.file == disk(|DownloadsOf(log)|, PathAsked(e.frame))
    ensures Traces(disk, stream, log + [e])
  {
    hide DownloadsOf, PathAsked, Holding, NextAt, EndOf, Shown;
    assert (log + [e])[..|log|] == log;
  }

  lemma LogOne(disk: Disk, c: Connection, stream: seq<Byte>, log: seq<Entry>)
    requires Logged(disk, c, stream, log) && Nbytes(c) > 0
    ensures Logged(disk, Pass(disk, c), stream, log + [NextEntry(disk, c, log)])
  {
    NextShown(disk, c, stream, log);
    var e, r := NextEntry(disk, c, log), Pass(disk, c);
    var all := log + [e];
    hide Overlay, Place, SaveOf, PathAsked, SenderId, Packets, NextFrame, Pass, Read, Traces;
    hide BufferOf, SavesOf, DownloadsOf, Holding, EndOf, NextAt, Nbytes, Zeros, NextEntry;
    hide Entry.Sends, Entry.Places, Entry.Saves, Entry.Clears, Entry.GoesOn;
    PassEntry(disk, c, log);
    OneMore(log, e);
    TracesOne(disk, stream, log, e);
    assert r.block.index == EndOf(all) - NextAt(all);
  }

  lemma {:induction false} LogDrain(disk: Disk, c: Connection, stream: seq<Byte>, log: seq<Entry>)
    returns (all: seq<Entry>)
    requires c.block.Valid() && Logged(disk, c, stream, log)
    ensures Logged(disk, Drain(disk, c), stream, all)
    decreases |c.input|
  {
    hide Pass, Logged;
    all := log;
    if Nbytes(c) != 0 {
      LogOne(disk, c, stream, log);
      all := LogDrain(disk, Pass(disk, c), stream, log + [NextEntry(disk, c, log)]);
    }
  }

  lemma {:induction false} TracesMore(disk: Disk, stream: seq<Byte>, chunk: seq<Byte>, log: seq<Entry>)
    requires Traces(disk, stream, log)
    ensures Traces(disk, stream + chunk, log) && EndOf(log) <= |stream|
    decreases |log|
  {
    hide DownloadsOf, PathAsked, Holding, NextAt;
    if log != [] {
      var e := log[|log| - 1];
      TracesMore(disk, stream, chunk, log[..|log| - 1]);
      assert (stream + chunk)[e.at..e.End()] == stream[e.at..e.End()];
    }
  }

  lemma LogArrival(disk: Disk, c: Connection, stream: seq<Byte>, log: seq<Entry>, chunk: seq<Byte>)
    requires Logged(disk, c, stream, log)
    ensures Logged(disk, c.(input := c.input + chunk), stream + chunk, log)
  {
    hide Traces, BufferOf, SavesOf, DownloadsOf, Holding, EndOf, NextAt;
    TracesMore(disk, stream, chunk, log);
    assert (stream + chunk)[EndOf(log)..] == stream[EndOf(log)..] + chunk;
  }

  lemma NothingLogged(disk: Disk)
    ensures Logged(disk, NEW_CONNECTION, [], [])
  {
    assert BufferOf([]) == Zeros(BUFFER) && Holding([]) == Zeros(PACKET);
    assert SavesOf([]) == [] && DownloadsOf([]) == [];
    hide Zeros, BufferOf, Holding, SavesOf, DownloadsOf;
  }

  lemma {:induction false} EverythingLogged(disk: Disk, chunks: seq<seq<Byte>>) returns (log: seq<Entry>)
    ensures Logged(disk, Serve(disk, NEW_CONNECTION, chunks), Flatten(chunks), log)
    decreases |chunks|
  {
    hide Drain, Logged;
    if chunks == [] {
      log := [];
      NothingLogged(disk);
    } else {
      var front, last := chunks[..|chunks| - 1], chunks[|chunks| - 1];
      log := EverythingLogged(disk, front);
      var c := Serve(disk, NEW_CONNECTION, front);
      LogArrival(disk, c, Flatten(front), log, last);
      log := LogDrain(disk, c.(input := c.input + last), Flatten(chunks), log);
    }
  }

  // ---------- What can be read off it ----------

  lemma {:induction false} TracesPrefix(disk: Disk, stream: seq<Byte>, log: seq<Entry>, k: nat)
    requires Traces(disk, stream, log) && k <= |log|
    ensures Traces(disk, stream, log[..k])
    decreases |log|
  {
    if k == |log| {
      assert log[..k] == log;
    } else {
      TracesPrefix(disk, stream, log[..|log| - 1], k);
      assert log[..|log| - 1][..k] == log[..k];
    }
  }

  /** Later passes end later. */
  lemma {:induction false} LaterEnds(disk: Disk, stream: seq<Byte>, log: seq<Entry>, i: nat, j: nat)
    requires Traces(disk, stream, log) && i < j < |log|
    ensures log[i].End() < log[j].End()
    decreases |log|
  {
    hide Shown, DownloadsOf, PathAsked, Holding, NextAt;
    var front := log[..|log| - 1];
    if j < |log| - 1 {
      LaterEnds(disk, stream, front, i, j);
    } else if i < j - 1 {
      LaterEnds(disk, stream, front, i, j - 1);
    }
  }

  predicate AllBlock(log: seq<Entry>) {
    forall i :: 0 <= i < |log| ==> log[i].frame[0] == HDR_BLOCK_DATA_RECV
  }

  /** As long as nothing but block packets has come the rest of the packet buffer is zero. */
  lemma {:induction false} CleanTail(disk: Disk, stream: seq<Byte>, log: seq<Entry>)
    requires Traces(disk, stream, log) && AllBlock(log)
    ensures NextAt(log) <= EndOf(log) && |Holding(log)| == PACKET
    ensures forall p :: EndOf(log) - NextAt(log) <= p < PACKET ==> Holding(log)[p] == 0
    decreases |log|
  {
    hide DownloadsOf, PathAsked, IsLast;
    if log != [] {
      var front, e := log[..|log| - 1], log[|log| - 1];
      CleanTail(disk, stream, front);
      forall p | e.length <= p < PACKET ensures e.frame[p] == 0 {
        assert e.frame[e.length..][p - e.length] == Holding(front)[e.length..][p - e.length];
        assert EndOf(front) - NextAt(front) <= e.length;
      }
    }
  }

  lemma CleanFrame(disk: Disk, stream: seq<Byte>, log: seq<Entry>)
    requires Traces(disk, stream, log) && log != [] && AllBlock(log[..|log| - 1]) && log[|log| - 1].length < HEADER
    ensures log[|log| - 1].frame[IDX_LENGTH + 1] == 0
  {
    hide DownloadsOf, PathAsked, IsLast;
    var front, e, p := log[..|log| - 1], log[|log| - 1], IDX_LENGTH + 1;
    CleanTail(disk, stream, front);
    assert e.frame[e.length..][p - e.length] == Holding(front)[e.length..][p - e.length];
    assert EndOf(front) - NextAt(front) <= e.length;
  }

  lemma EarlyByte(e: Entry)
    requires e.Places() && e.length < HEADER
    ensures e.frame[IDX_LENGTH + 1] != 0
  {
    hide IsLast;
  }

  /** A packet whose header has not come is placed, and then saves, only if a packet of another kind came
      before. */
  lemma EarlyNeedsOther(disk: Disk, stream: seq<Byte>, log: seq<Entry>, j: nat)
    requires Traces(disk, stream, log) && j < |log| && log[j].Places() && log[j].length < HEADER
    ensures exists i :: 0 <= i < j && log[i].frame[0] != HDR_BLOCK_DATA_RECV
  {
    hide Traces, IsLast, Complete;
    var upto, front := log[..j + 1], log[..j];
    TracesPrefix(disk, stream, log, j + 1);
    assert upto[..j] == front;
    EarlyByte(log[j]);
    if AllBlock(front) {
      CleanFrame(disk, stream, upto);
    } else {
      var i :| 0 <= i < j && front[i].frame[0] != HDR_BLOCK_DATA_RECV;
      assert log[i] == front[i];
    }
  }

  /** The pass stores something at position p of the block buffer. */
  predicate Writes(e: Entry, p: nat) {
    if e.Sends() then p < |Stream(SenderId(e.frame), 0, e.file)| else e.Places() && Covers(e.frame, p)
  }

  /** The pass stores v at p: a byte that arrived there, or one of a file that was sent. */
  predicate Brings(stream: seq<Byte>, e: Entry, p: nat, v: Byte) {
    && Writes(e, p)
    && if e.Sends() then v == Stream(SenderId(e.frame), 0, e.file)[p]
       else
         var q := e.at + HEADER + p - Base(e.frame);
         0 <= q < e.End() <= |stream| && stream[q] == v
  }

  /** v is what the latest pass that stores anything at p stores there, or zero when none does. */
  ghost predicate Traced(stream: seq<Byte>, log: seq<Entry>, p: nat, v: Byte) {
    || (v == 0 && forall j :: 0 <= j < |log| ==> !Writes(log[j], p))
    || exists j :: && 0 <= j < |log| && Brings(stream, log[j], p, v)
                   && forall i :: j < i < |log| ==> !Writes(log[i], p)
  }

  lemma TracedNext(stream: seq<Byte>, log: seq<Entry>, e: Entry, p: nat, v: Byte, v': Byte)
    requires Traced(stream, log, p, v)
    requires if Writes(e, p) then Brings(stream, e, p, v') else v' == v
    ensures Traced(stream, log + [e], p, v')
  {
    hide Brings, Writes;
    var log' := log + [e];
    if Writes(e, p) {
      assert Brings(stream, log'[|log|], p, v');
    } else if j :| 0 <= j < |log| && Brings(stream, log[j], p, v) && forall i :: j < i < |log| ==> !Writes(log[i], p) {
      assert Brings(stream, log'[j], p, v');
    }
  }

  lemma StepTraced(stream: seq<Byte>, log: seq<Entry>, e: Entry, p: nat)
    requires p < BUFFER && Shown(stream, e)
    ensures var v := BufferOf(log + [e])[p];
      if Writes(e, p) then Brings(stream, e, p, v) else v == BufferOf(log)[p]
  {
    OneMore(log, e);
    StreamLength(SenderId(e.frame), 0, e.file);
    if e.Places() && Covers(e.frame, p) {
      CoveredArrived(stream, e, p);
    }
    hide Stream, IsLast, Complete, DataLength, Base, BufferOf, Shown;
  }

  /** A byte of a placed frame that goes into the buffer is one that arrived. */
  lemma CoveredArrived(stream: seq<Byte>, e: Entry, p: nat)
    requires Shown(stream, e) && e.Places() && Covers(e.frame, p)
    ensures var q := HEADER + p - Base(e.frame);
      0 <= e.at + q < e.End() && e.frame[q] == stream[e.at + q]
  {
    hide Base, DataLength, IsLast;
    var q := HEADER + p - Base(e.frame);
    assert e.frame[..e.length][q] == stream[e.at..e.End()][q];
  }

  lemma LastShown(disk: Disk, stream: seq<Byte>, log: seq<Entry>)
    requires Traces(disk, stream, log) && log != []
    ensures Traces(disk, stream, log[..|log| - 1]) && Shown(stream, log[|log| - 1])
  {
  }

  lemma {:induction false} BufferTraced(disk: Disk, stream: seq<Byte>, log: seq<Entry>, p: nat)
    requires p < BUFFER && Traces(disk, stream, log)
    ensures Traced(stream, log, p, BufferOf(log)[p])
    decreases |log|
  {
    if log == [] {
      assert BufferOf(log)[p] == 0;
    } else {
      hide Shown, Traces, Traced, Writes, Brings, BufferOf;
      var front, e := log[..|log| - 1], log[|log| - 1];
      LastShown(disk, stream, log);
      FrontAndLast(log);
      BufferTraced(disk, stream, front, p);
      StepTraced(stream, front, e, p);
      TracedNext(stream, front, e, p, BufferOf(front)[p], BufferOf(front + [e])[p]);
    }
  }

  /** Where the bytes of uploads come from, for any arrivals at all on a new connection: there is a log of the
      passes made, reading the arrived bytes one after the other, such that the block buffer, the saves and the
      downloads answered are those of the log. At every point of it each byte of the block buffer, so of every
      file saved from it, is what the latest pass that stores anything there stored: a byte that arrived for it,
      or one of the packets of a file that was sent; or zero when there is none. And a packet is placed before
      its header has come only after a packet of another kind. */
  lemma UploadProvenance(disk: Disk, chunks: seq<seq<Byte>>) returns (log: seq<Entry>)
    ensures var c, stream := Serve(disk, NEW_CONNECTION, chunks), Flatten(chunks);
      && Traces(disk, stream, log) && EndOf(log) <= |stream| && c.input == stream[EndOf(log)..]
      && c.block.buffer == BufferOf(log) && c.saved == SavesOf(log) && c.downloads == DownloadsOf(log)
    ensures forall i, j :: 0 <= i < j < |log| ==> log[i].End() < log[j].End()
    ensures forall k, p: nat :: 0 <= k <= |log| && p < BUFFER ==>
              Traced(Flatten(chunks), log[..k], p, BufferOf(log[..k])[p])
    ensures forall j :: 0 <= j < |log| && log[j].Places() && log[j].length < HEADER ==>
              exists i :: 0 <= i < j && log[i].frame[0] != HDR_BLOCK_DATA_RECV
  {
    hide Traced, Serve, BufferOf, SavesOf, DownloadsOf, Traces;
    log := EverythingLogged(disk, chunks);
    var stream := Flatten(chunks);
    forall i, j | 0 <= i < j < |log| ensures log[i].End() < log[j].End() {
      LaterEnds(disk, stream, log, i, j);
    }
    forall k, p: nat | 0 <= k <= |log| && p < BUFFER ensures Traced(stream, log[..k], p, BufferOf(log[..k])[p]) {
      TracesPrefix(disk, stream, log, k);
      BufferTraced(disk, stream, log[..k], p);
    }
    forall j | 0 <= j < |log| && log[j].Places() && log[j].length < HEADER
      ensures exists i :: 0 <= i < j && log[i].frame[0] != HDR_BLOCK_DATA_RECV
    {
      EarlyNeedsOther(disk, stream, log, j);
    }
  }
}
