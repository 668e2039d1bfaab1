/** Loading the bindings, and what whole runs of commands, heartbeats, locations and polls deliver to whom. */
module Routing {
  import opened Bytes
  import opened HexText
  import opened DecimalText
  import opened Options
  import opened Commands
  import opened Store
  import Wire

  type Row = (User, Device)

  /** The loop of initUserAndDeviceRelationshipList, row by row. */
  function LoadDb(db: Db, rows: seq<Row>): Db {
    if rows == [] then db
    else
      var (u, d) := rows[|rows| - 1];
      Bind(LoadDb(db, rows[..|rows| - 1]), Print(u), d)
  }

  function LoadTables(t: Tables, rows: seq<Row>): Tables {
    if rows == [] then t
    else
      var (u, d) := rows[|rows| - 1];
      TableBind(LoadTables(t, rows[..|rows| - 1]), u, d)
  }

  lemma {:induction false} LoadRefines(db: Db, t: Tables, rows: seq<Row>)
    requires Represents(db, t)
    ensures Represents(LoadDb(db, rows), LoadTables(t, rows))
  {
    hide Represents, Print;
    if rows != [] {
      var front := rows[..|rows| - 1];
      var (u, d) := rows[|rows| - 1];
      LoadRefines(db, t, front);
      BindRefines(LoadDb(db, front), LoadTables(t, front), u, d);
    }
  }

  /** No user has two devices and no device two users. */
  ghost predicate OneToOne(rows: seq<Row>) {
    forall i, j :: 0 <= i < |rows| && 0 <= j < |rows| ==> (rows[i].0 == rows[j].0 <==> rows[i].1 == rows[j].1)
  }

  predicate HasUser(rows: seq<Row>, u: User) {
    exists i :: 0 <= i < |rows| && rows[i].0 == u
  }

  predicate HasDevice(rows: seq<Row>, d: Device) {
    exists i :: 0 <= i < |rows| && rows[i].1 == d
  }

  /** After loading a one-to-one list over whatever the store held, a user is bound to the device on the list,
      and one who is not on it still to the old device; devices likewise. */
  lemma {:induction false} LoadedRows(t: Tables, rows: seq<Row>, u: User, d: Device)
    requires OneToOne(rows)
    ensures var t' := LoadTables(t, rows);
      && t'.mailbox == t.mailbox && t'.slot == t.slot
      && (Lookup(t'.deviceOf, u) == Some(d) <==>
            (u, d) in rows || (Lookup(t.deviceOf, u) == Some(d) && !HasUser(rows, u)))
      && (Lookup(t'.userOf, d) == Some(u) <==>
            (u, d) in rows || (Lookup(t.userOf, d) == Some(u) && !HasDevice(rows, d)))
  {
    if rows != [] {
      var n := |rows| - 1;
      LoadedRows(t, rows[..n], u, d);
      RowsFrom(rows, u, d);
    }
  }

  lemma RowsFrom(rows: seq<Row>, u: User, d: Device)
    requires rows != [] && OneToOne(rows)
    ensures var n := |rows| - 1;
      var front, row := rows[..n], rows[n];
      && OneToOne(front)
      && ((u, d) in rows <==> (u, d) in front || row == (u, d))
      && (HasUser(rows, u) <==> HasUser(front, u) || row.0 == u)
      && (HasDevice(rows, d) <==> HasDevice(front, d) || row.1 == d)
      && ((u, d) in front ==> (row.0 == u <==> row.1 == d) && HasUser(front, u) && HasDevice(front, d))
  {
    var n := |rows| - 1;
    var front, row := rows[..n], rows[n];
    assert rows == front + [row];
    if (u, d) in front {
      var i :| 0 <= i < n && front[i] == (u, d);
      assert rows[i].0 == row.0 <==> rows[i].1 == row.1;
    }
    if i :| 0 <= i < |rows| && rows[i].0 == u {
      assert i < n ==> front[i].0 == u;
    }
    if i :| 0 <= i < |rows| && rows[i].1 == d {
      assert i < n ==> front[i].1 == d;
    }
  }

  /** The two flat binding tables after loading, over whatever the store held. */
  lemma LoadedBindings(db: Db, t: Tables, rows: seq<Row>, u: User, d: Device)
    requires Represents(db, t) && OneToOne(rows)
    ensures var db' := LoadDb(db, rows);
      && (Get(db', "RP_" + Print(u)) == Some(d) <==>
            (u, d) in rows || (Get(db, "RP_" + Print(u)) == Some(d) && !HasUser(rows, u)))
      && (Get(db', "R_" + d) == Some(Print(u)) <==>
            (u, d) in rows || (Get(db, "R_" + d) == Some(Print(u)) && !HasDevice(rows, d)))
  {
    hide Represents, Print;
    LoadRefines(db, t, rows);
    LoadedRows(t, rows, u, d);
    FlatBindings(db, t, u, d);
    FlatBindings(LoadDb(db, rows), LoadTables(t, rows), u, d);
  }

  lemma FlatBindings(db: Db, t: Tables, u: User, d: Device)
    requires Represents(db, t)
    ensures Get(db, "RP_" + Print(u)) == Some(d) <==> Lookup(t.deviceOf, u) == Some(d)
    ensures Get(db, "R_" + d) == Some(Print(u)) <==> Lookup(t.userOf, d) == Some(u)
  {
    hide Represents, Print;
    GetEntry(db, t, PhoneBinding(u));
    GetEntry(db, t, DeviceBinding(d));
    if d in t.userOf {
      UserTextShort(t.userOf[d]);
      if Print(t.userOf[d]) == Print(u) {
        PrintInjective(t.userOf[d], u);
      }
    }
  }

  /** Every user's device is bound back to that user, and the other way round. */
  ghost predicate MutualInverse(t: Tables) {
    forall d: Device, u: User :: Lookup(t.userOf, d) == Some(u) <==> Lookup(t.deviceOf, u) == Some(d)
  }

  /** An old binding is replaced as a whole or not at all: its user is on the list if its device is. */
  ghost predicate Settled(t: Tables, rows: seq<Row>) {
    forall u: User, d: Device :: Lookup(t.deviceOf, u) == Some(d) ==> (HasUser(rows, u) <==> HasDevice(rows, d))
  }

  /** Loading over mutually inverse bindings keeps them mutually inverse if and only if it replaces no old
      binding by half. */
  lemma LoadedInverse(t: Tables, rows: seq<Row>)
    requires OneToOne(rows) && MutualInverse(t)
    ensures MutualInverse(LoadTables(t, rows)) <==> Settled(t, rows)
  {
    hide LoadTables, HasUser, HasDevice, OneToOne;
    var t' := LoadTables(t, rows);
    forall u: User, d: Device
      ensures Lookup(t'.userOf, d) == Some(u) <==>
                (u, d) in rows || (Lookup(t.userOf, d) == Some(u) && !HasDevice(rows, d))
      ensures Lookup(t'.deviceOf, u) == Some(d) <==>
                (u, d) in rows || (Lookup(t.deviceOf, u) == Some(d) && !HasUser(rows, u))
      ensures (u, d) in rows ==> HasUser(rows, u) && HasDevice(rows, d)
    {
      LoadedRows(t, rows, u, d);
      ListedBoth(rows, u, d);
    }
    if MutualInverse(t') {
      forall u: User, d: Device | Lookup(t.deviceOf, u) == Some(d) ensures HasUser(rows, u) <==> HasDevice(rows, d) {
        assert Lookup(t.userOf, d) == Some(u);
        assert Lookup(t'.userOf, d) == Some(u) <==> Lookup(t'.deviceOf, u) == Some(d);
      }
    }
    if Settled(t, rows) {
      forall d: Device, u: User ensures Lookup(t'.userOf, d) == Some(u) <==> Lookup(t'.deviceOf, u) == Some(d) {
        assert Lookup(t.userOf, d) == Some(u) <==> Lookup(t.deviceOf, u) == Some(d);
      }
    }
  }

  lemma ListedBoth(rows: seq<Row>, u: User, d: Device)
    ensures (u, d) in rows ==> HasUser(rows, u) && HasDevice(rows, d)
  {
    if i :| 0 <= i < |rows| && rows[i] == (u, d) {
      assert rows[i].0 == u && rows[i].1 == d;
    }
  }

  // ---------- One command, one heartbeat ----------

  /** A phone's packet, then the heartbeat of the device bound to it. */
  lemma BoundCommand(db: Db, t: Tables, p: Packet, newest: Option<string>, h: Packet)
    requires Represents(db, t)
    requires 0 <= PhoneOf(p) < 100000000 && PhoneOf(p) in t.deviceOf && t.deviceOf[PhoneOf(p)] == DeviceOf(h)
    requires DeviceOf(h) in t.userOf && IsPosted(p[5])
    ensures var (db1, result1) := PhoneCommand(db, p, LEN_COMMAND_PACKET, newest);
      var (db2, result, info) := DeviceHeart(db1, h, LEN_HEART_PACKET_DEVICE, NO_INFO);
      && result1 == 0
      && Get(db1, DeviceOf(h)) == Some(StoredText(p[5], p[6], NumberOf(p)))
      && ReplyOf(result, info) == ReplyFor(p[5], p[6], BcdParts(NumberOf(p)))
      && DeviceOf(h) !in db2
  {
    hide Represents, StoredText, Deliver, ReplyOf, ReplyFor, PhoneOf, DeviceOf, ReportOf, NumberOf, PhoneCommand,
         DeviceHeart;
    var (db1, result1) := PhoneCommand(db, p, LEN_COMMAND_PACKET, newest);
    var u: User := PhoneOf(p);
    var t1 := TableCommand(t, u, p[5], p[6], NumberOf(p), newest).0;
    CommandRefines(db, t, p, newest);
    HeartRefines(db1, t1, h, NO_INFO);
    MailboxShort(p[5], p[6], NumberOf(p));
    CommandRoundTrip(p[5], p[6], NumberOf(p));
    GetEntry(db1, t1, Mailbox(DeviceOf(h)));
    var db2 := DeviceHeart(db1, h, LEN_HEART_PACKET_DEVICE, NO_INFO).0;
    var t2 := TableHeart(t1, DeviceOf(h), ReportOf(h), NO_INFO).0;
    Empty(db2, t2, Mailbox(DeviceOf(h)));
  }

  /** A device's heartbeat, then a poll from the phone bound to it. */
  lemma BoundReport(db: Db, t: Tables, h: Packet, info: Info, p: Packet)
    requires Represents(db, t)
    requires 0 <= PhoneOf(p) < 100000000 && Lookup(t.userOf, DeviceOf(h)) == Some(PhoneOf(p))
    ensures var db1 := DeviceHeart(db, h, LEN_HEART_PACKET_DEVICE, info).0;
      Poll(db1, p, LEN_HEART_PACKET_PHONE) == (|ReportOf(h)|, ReportOf(h))
  {
    hide Represents, Deliver, PhoneOf, DeviceOf, ReportOf, DeviceHeart, Poll;
    var db1 := DeviceHeart(db, h, LEN_HEART_PACKET_DEVICE, info).0;
    var t1 := TableHeart(t, DeviceOf(h), ReportOf(h), info).0;
    HeartRefines(db, t, h, info);
    PollRefines(db1, t1, p);
    ReportShort(h);
  }

  lemma FlatPair(db: Db, t: Tables, phone: User, id: seq<Byte>)
    requires Represents(db, t) && |id| == 8
    ensures Get(db, "RP_" + Print(phone)) == Some(Text(id)) ==> Lookup(t.deviceOf, phone) == Some(Text(id))
    ensures Get(db, "R_" + Text(id)) == Some(Print(phone)) ==> Lookup(t.userOf, Text(id)) == Some(phone)
    ensures Get(db, "R_" + Text(id)).Some? ==> Text(id) in t.userOf
  {
    var d: Device := Text(id);
    hide Represents, Text, Print, Get;
    FlatBindings(db, t, phone, d);
    GetEntry(db, t, DeviceBinding(d));
  }

  /** The whole way of a command over the flat store, from the bytes a phone sends to the bytes its device gets:
      whatever else the store holds, the device's mailbox then has the command's text, and its next heartbeat is
      answered with the command (letter nibbles of a number as zero) and empties the mailbox. */
  lemma BoundCommandRoundTrip(db: Db, t: Tables, phone: nat, cmd: Byte, index: Byte, number: PhoneNumber,
                              newest: Option<string>, id: seq<Byte>, info: seq<Byte>, gap: seq<Byte>, time: int,
                              rest: seq<Byte>)
    requires Represents(db, t) && phone < 100000000 && |id| == 8 && |info| == 12 && |gap| == 3 && |rest| >= 17
    requires -0x8000_0000 <= time < 0x8000_0000 && IsPosted(cmd)
    requires Get(db, "RP_" + Print(phone)) == Some(Text(id)) && Get(db, "R_" + Text(id)).Some?
    ensures var (db1, result1) := PhoneCommand(db, Wire.CommandPacket(phone, cmd, index, number, rest), 16, newest);
      var (db2, result2, reply) := DeviceHeart(db1, Wire.Heartbeat(id, info, gap, time, rest), 32, NO_INFO);
      && result1 == 0 && Get(db1, Text(id)) == Some(StoredText(cmd, index, number))
      && ReplyOf(result2, reply) == ReplyFor(cmd, index, BcdParts(number))
      && Text(id) !in db2
  {
    hide Represents, Text, Print, PhoneOf, DeviceOf, NumberOf, ReportOf, PhoneCommand, DeviceHeart, ReplyOf, ReplyFor;
    hide StoredText, Get, BcdParts, Wire.CommandPacket, Wire.Heartbeat, IsPosted;
    CommandSent(phone, cmd, index, number, rest);
    HeartbeatSent(id, info, gap, time, rest);
    FlatPair(db, t, phone, id);
    BoundCommand(db, t, Wire.CommandPacket(phone, cmd, index, number, rest), newest,
                 Wire.Heartbeat(id, info, gap, time, rest));
  }

  /** The whole way of a report: the text made of the information and time a device sends is what the poll of
      the phone bound to it returns. */
  lemma BoundReportRoundTrip(db: Db, t: Tables, phone: nat, id: seq<Byte>, info: seq<Byte>, gap: seq<Byte>, time: int,
                             reply: Info, rest: seq<Byte>)
    requires Represents(db, t) && phone < 100000000 && |id| == 8 && |info| == 12 && |gap| == 3 && |rest| >= 27
    requires -0x8000_0000 <= time < 0x8000_0000
    requires Get(db, "R_" + Text(id)) == Some(Print(phone))
    ensures var db1 := DeviceHeart(db, Wire.Heartbeat(id, info, gap, time, rest), 32, reply).0;
      var report := "I_" + Text(info) + "_" + Print(time);
      Poll(db1, Wire.PollPacket(phone, rest), 8) == (|report|, report)
  {
    hide Represents, Text, Print, PhoneOf, DeviceOf, ReportOf, DeviceHeart, Poll, Get, Wire.Heartbeat, Wire.PollPacket;
    HeartbeatSent(id, info, gap, time, rest);
    PollSent(phone, rest);
    FlatPair(db, t, phone, id);
    BoundReport(db, t, Wire.Heartbeat(id, info, gap, time, rest), reply, Wire.PollPacket(phone, rest));
  }

  /** The whole way of a location: the text made of a device's location is what the poll returns. */
  lemma BoundLocationRoundTrip(db: Db, t: Tables, phone: nat, id: seq<Byte>, text: string, rest: seq<Byte>)
    requires Represents(db, t) && phone < 100000000 && |id| == 8 && |rest| >= 27 && |text| <= 254
    requires Get(db, "R_" + Text(id)) == Some(Print(phone))
    ensures var (db1, result) := LocationPacket(db, Wire.LocationPacket(id, rest), 32, text);
      result == 0 && Poll(db1, Wire.PollPacket(phone, rest), 8) == (|text|, text)
  {
    var d: Device := Text(id);
    hide Represents, Text, Print, PhoneOf, DeviceOf, Poll, Locate, Get, Wire.LocationPacket, Wire.PollPacket;
    LocationSent(id, rest);
    PollSent(phone, rest);
    FlatPair(db, t, phone, id);
    LocateRefines(db, t, d, text);
    PollRefines(Locate(db, d, text).0, TableLocate(t, d, text), Wire.PollPacket(phone, rest));
  }

  lemma Empty(db: Db, t: Tables, k: Key)
    requires Represents(db, t) && Entry(t, k) == None
    ensures KeyText(k) !in db
  {
    assert Lookup(db, KeyText(k)) == Entry(t, k);
  }

  lemma MailboxShort(cmd: Byte, index: Byte, number: PhoneNumber)
    ensures Cut(StoredText(cmd, index, number)) == StoredText(cmd, index, number)
  {
    hide Digits;
    SmallDigits(cmd);
    SmallDigits(if Signed(index) < 0 then -Signed(index) else Signed(index));
  }

  lemma SmallDigits(n: nat)
    requires n < 256
    ensures |Digits(n)| <= 3
  {
    DigitCount(n, 3);
    assert Power10(3) == 1000 by { assert Power10(2) == 100 by { assert Power10(1) == 10; } }
  }

  /** A command reaches no other device: for every device but the one bound to the phone, the next
      heartbeat returns and replies exactly as it would have without the command. */
  lemma CommandReachesOnlyItsDevice(db: Db, t: Tables, p: Packet, newest: Option<string>, h: Packet, info: Info)
    requires Represents(db, t)
    requires 0 <= PhoneOf(p) < 100000000 && Lookup(t.deviceOf, PhoneOf(p)) != Some(DeviceOf(h))
    ensures var (db1, _) := PhoneCommand(db, p, LEN_COMMAND_PACKET, newest);
      var (_, result, info0) := DeviceHeart(db, h, LEN_HEART_PACKET_DEVICE, info);
      var (_, result1, info1) := DeviceHeart(db1, h, LEN_HEART_PACKET_DEVICE, info);
      result1 == result && info1 == info0
  {
    hide Represents, MailboxText, Deliver, PhoneOf, DeviceOf, ReportOf, NumberOf, PhoneCommand, DeviceHeart;
    var db1 := PhoneCommand(db, p, LEN_COMMAND_PACKET, newest).0;
    var u: User := PhoneOf(p);
    var t1 := TableCommand(t, u, p[5], p[6], NumberOf(p), newest).0;
    CommandRefines(db, t, p, newest);
    HeartRefines(db, t, h, info);
    HeartRefines(db1, t1, h, info);
  }

  /** Loading replaces an old binding by half when its device is on the list and its user is not. The old
      phone is then still heard: its command is delivered by the device's next heartbeat. */
  lemma OldPhoneStillHeard(db: Db, t: Tables, rows: seq<Row>, p: Packet, newest: Option<string>, h: Packet)
    requires Represents(db, t) && OneToOne(rows)
    requires Lookup(t.deviceOf, UserOf(p)) == Some(DeviceOf(h))
    requires !HasUser(rows, UserOf(p)) && HasDevice(rows, DeviceOf(h)) && IsPosted(p[5])
    ensures var (db1, _) := PhoneCommand(LoadDb(db, rows), p, LEN_COMMAND_PACKET, newest);
      var (_, result, info) := DeviceHeart(db1, h, LEN_HEART_PACKET_DEVICE, NO_INFO);
      ReplyOf(result, info) == ReplyFor(p[5], p[6], BcdParts(NumberOf(p)))
  {
    var d: Device, u := DeviceOf(h), UserOf(p);
    hide Represents, PhoneCommand, DeviceHeart, DeviceOf, PhoneOf, NumberOf, ReplyOf, ReplyFor, LoadDb, LoadTables;
    hide OneToOne;
    PhoneIsUser(p);
    LoadRefines(db, t, rows);
    LoadedRows(t, rows, u, d);
    var i :| 0 <= i < |rows| && rows[i].1 == d;
    LoadedRows(t, rows, rows[i].0, d);
    assert rows[i] == (rows[i].0, d);
    BoundCommand(LoadDb(db, rows), LoadTables(t, rows), p, newest, h);
  }

  /** And when the user is on the list and the old device is not, the old device is still seen: its next
      report is what the user's poll returns. */
  lemma OldDeviceStillSeen(db: Db, t: Tables, rows: seq<Row>, h: Packet, info: Info, p: Packet)
    requires Represents(db, t) && OneToOne(rows)
    requires Lookup(t.userOf, DeviceOf(h)) == Some(UserOf(p))
    requires HasUser(rows, UserOf(p)) && !HasDevice(rows, DeviceOf(h))
    ensures var db1 := DeviceHeart(LoadDb(db, rows), h, LEN_HEART_PACKET_DEVICE, info).0;
      Poll(db1, p, LEN_HEART_PACKET_PHONE) == (|ReportOf(h)|, ReportOf(h))
  {
    var d: Device, u := DeviceOf(h), UserOf(p);
    hide Represents, DeviceHeart, DeviceOf, PhoneOf, ReportOf, Poll, LoadDb, LoadTables, OneToOne;
    PhoneIsUser(p);
    LoadRefines(db, t, rows);
    LoadedRows(t, rows, u, d);
    BoundReport(LoadDb(db, rows), LoadTables(t, rows), h, info, p);
  }

  // ---------- Whole runs over the flat store ----------

  /** What changes or reads the store: packets to the handlers, of any length (`newest` as for PhoneCommand,
      `text` the location text), the ends of the two threads they start, and new bindings. */
  datatype Request =
    | Posts(p: Packet, length: int, newest: Option<string>)
    | Beats(p: Packet, length: int)
    | Asks(p: Packet, length: int)
    | Locates(p: Packet, length: int, text: string)
    | Located(d: Device, text: string)
    | Announces(d: Device)
    | Binds(u: User, d: Device)

  /** One handler run to completion over the flat store; polls change nothing. */
  function Handle(db: Db, q: Request): Db {
    match q
    case Posts(p, length, newest) => PhoneCommand(db, p, length, newest).0
    case Beats(p, length) => DeviceHeart(db, p, length, NO_INFO).0
    case Asks(_, _) => db
    case Locates(p, length, text) => LocationPacket(db, p, length, text).0
    case Located(d, text) => Locate(db, d, text).0
    case Announces(d) => Announce(db, d)
    case Binds(u, d) => Bind(db, Print(u), d)
  }

  function RunDb(db: Db, qs: seq<Request>): Db {
    if qs == [] then db else Handle(RunDb(db, qs[..|qs| - 1]), qs[|qs| - 1])
  }

  /** What a request asks for, once its length is accepted. */
  datatype Event =
    | Post(u: User, command: Command, newest: Option<string>)
    | Beat(d: Device, report: string)
    | Place(d: Device, text: string)
    | Fetched(d: Device)
    | NewBinding(u: User, d: Device)
    | Nothing

  datatype Command = Command(cmd: Byte, index: Byte, number: PhoneNumber)

  function UserOf(p: Packet): User {
    PhoneIsUser(p);
    PhoneOf(p)
  }

  function CommandOf(p: Packet): Command {
    Command(p[5], p[6], NumberOf(p))
  }

  function EventOf(q: Request): Event {
    match q
    case Posts(p, length, newest) =>
      if length == 16 then Post(UserOf(p), CommandOf(p), newest) else Nothing
    case Beats(p, length) => if length == 32 then Beat(DeviceOf(p), ReportOf(p)) else Nothing
    case Asks(_, _) => Nothing
    case Locates(p, length, text) => if length == 32 then Place(DeviceOf(p), text) else Nothing
    case Located(d, text) => Place(d, text)
    case Announces(d) => Fetched(d)
    case Binds(u, d) => NewBinding(u, d)
  }

  function TableHandle(t: Tables, e: Event): Tables {
    match e
    case Post(u, c, newest) => TableCommand(t, u, c.cmd, c.index, c.number, newest).0
    case Beat(d, report) => TableHeart(t, d, report, NO_INFO).0
    case Place(d, text) => TableLocate(t, d, text)
    case Fetched(d) => TableAnnounce(t, d)
    case NewBinding(u, d) => TableBind(t, u, d)
    case Nothing => t
  }

  function Run(t: Tables, qs: seq<Request>): Tables {
    if qs == [] then t else TableHandle(Run(t, qs[..|qs| - 1]), EventOf(qs[|qs| - 1]))
  }

  /** One request over the flat store is its event on the tables. */
  lemma HandleRefines(db: Db, t: Tables, q: Request)
    requires Represents(db, t)
    ensures Represents(Handle(db, q), TableHandle(t, EventOf(q)))
  {
    hide Represents, PhoneCommand, DeviceHeart, TableCommand, TableHeart, Locate, TableLocate, Announce, TableAnnounce;
    hide Bind, TableBind, PhoneOf, ReportOf, NumberOf, Print;
    match q {
      case Posts(p, length, newest) =>
        RefusedPackets(db, p, length, newest, NO_INFO);
        CommandRefines(db, t, p, newest);
      case Beats(p, length) =>
        RefusedPackets(db, p, length, None, NO_INFO);
        HeartRefines(db, t, p, NO_INFO);
      case Locates(p, length, text) => LocateRefines(db, t, DeviceOf(p), text);
      case Located(d, text) => LocateRefines(db, t, d, text);
      case Announces(d) => AnnounceRefines(db, t, d);
      case Binds(u, d) => BindRefines(db, t, u, d);
      case Asks(_, _) =>
    }
  }

  /** Every run over the flat store is the run over the tables. */
  lemma {:induction false} RunRefines(db: Db, t: Tables, qs: seq<Request>)
    requires Represents(db, t)
    ensures Represents(RunDb(db, qs), Run(t, qs))
  {
    hide Represents, Handle, TableHandle, EventOf;
    if qs != [] {
      RunRefines(db, t, qs[..|qs| - 1]);
      HandleRefines(RunDb(db, qs[..|qs| - 1]), Run(t, qs[..|qs| - 1]), qs[|qs| - 1]);
    }
  }

  datatype Bindings = Bindings(deviceOf: map<User, Device>, userOf: map<Device, User>)

  function BindingsOf(t: Tables): Bindings {
    Bindings(t.deviceOf, t.userOf)
  }

  /** The bindings after a run, read off the requests alone: only new bindings change them. */
  function Bound(b: Bindings, qs: seq<Request>): Bindings {
    if qs == [] then b
    else
      var b1, e := Bound(b, qs[..|qs| - 1]), EventOf(qs[|qs| - 1]);
      if e.NewBinding? then Bindings(b1.deviceOf[e.u := e.d], b1.userOf[e.d := e.u]) else b1
  }

  /** The latest command for device d that it has not fetched since, read off the requests and bindings alone:
      one posted by a phone bound to d at the time, or the server's own. `first` is what the mailbox held
      before. */
  function Pending(b: Bindings, qs: seq<Request>, d: Device, first: Option<Command>): Option<Command> {
    if qs == [] then first
    else
      var front := qs[..|qs| - 1];
      var now, e := Bound(b, front), EventOf(qs[|qs| - 1]);
      if e.Beat? && e.d == d && d in now.userOf then None
      else if e.Post? && Lookup(now.deviceOf, e.u) == Some(d) && IsPosted(e.command.cmd) then Some(e.command)
      else if e == Fetched(d) then Some(Command(0x2B, 0, Zeros(8)))
      else Pending(b, front, d, first)
  }

  /** The latest report or location of a device bound to user u at the time, or database location fetched for
      u, from the requests and bindings alone. */
  function LatestReport(b: Bindings, qs: seq<Request>, u: User, first: Option<string>): Option<string> {
    if qs == [] then first
    else
      var front := qs[..|qs| - 1];
      var now, e := Bound(b, front), EventOf(qs[|qs| - 1]);
      if e.Beat? && Lookup(now.userOf, e.d) == Some(u) then Some(e.report)
      else if e.Place? && Lookup(now.userOf, e.d) == Some(u) then Some(e.text)
      else if e.Post? && e.u == u && u in now.deviceOf && e.command.cmd == 0x01 && e.newest.Some? then
        e.newest
      else LatestReport(b, front, u, first)
  }

  function TextOf(c: Option<Command>): Option<string> {
    match c
    case None => None
    case Some(Command(cmd, index, number)) => Some(StoredText(cmd, index, number))
  }

  predicate Storable(c: Option<Command>) {
    c.Some? ==> IsStored(c.value.cmd)
  }

  /** What one event does to the bindings, one mailbox and one slot. */
  lemma Effects(t: Tables, e: Event, u: User, d: Device)
    ensures var t1 := TableHandle(t, e);
      && BindingsOf(t1) == (if e.NewBinding? then Bindings(t.deviceOf[e.u := e.d], t.userOf[e.d := e.u])
                            else BindingsOf(t))
      && Lookup(t1.mailbox, d) ==
           (if e.Beat? && e.d == d && d in t.userOf then None
            else if e.Post? && Lookup(t.deviceOf, e.u) == Some(d) && IsPosted(e.command.cmd) then
              TextOf(Some(e.command))
            else if e == Fetched(d) then Some(SingleText(CMD_AGPS_DOWNLOAD))
            else Lookup(t.mailbox, d))
      && Lookup(t1.slot, u) ==
           (if e.Beat? && Lookup(t.userOf, e.d) == Some(u) then Some(e.report)
            else if e.Place? && Lookup(t.userOf, e.d) == Some(u) then Some(e.text)
            else if e.Post? && e.u == u && u in t.deviceOf && e.command.cmd == 0x01 && e.newest.Some?
            then e.newest
            else Lookup(t.slot, u))
  {
    hide StoredText, SingleText, Deliver;
  }

  lemma {:induction false} RunBindings(t: Tables, qs: seq<Request>)
    ensures BindingsOf(Run(t, qs)) == Bound(BindingsOf(t), qs)
  {
    hide EventOf, TableHandle;
    if qs != [] {
      RunBindings(t, qs[..|qs| - 1]);
      Effects(Run(t, qs[..|qs| - 1]), EventOf(qs[|qs| - 1]), 0, seq(16, _ => '0'));
    }
  }

  lemma {:induction false} RunMailbox(t: Tables, qs: seq<Request>, d: Device, first: Option<Command>)
    requires Lookup(t.mailbox, d) == TextOf(first)
    ensures Lookup(Run(t, qs).mailbox, d) == TextOf(Pending(BindingsOf(t), qs, d, first))
  {
    hide StoredText, SingleText, EventOf, TableHandle;
    if qs != [] {
      RunMailbox(t, qs[..|qs| - 1], d, first);
      RunBindings(t, qs[..|qs| - 1]);
      Effects(Run(t, qs[..|qs| - 1]), EventOf(qs[|qs| - 1]), 0, d);
      AnnouncedText();
    }
  }

  lemma AnnouncedText()
    ensures StoredText(CMD_AGPS_DOWNLOAD, 0, Zeros(LEN_PHONE_NUMBER)) == SingleText(CMD_AGPS_DOWNLOAD)
  {
  }

  lemma {:induction false} RunSlot(t: Tables, qs: seq<Request>, u: User)
    ensures Lookup(Run(t, qs).slot, u) == LatestReport(BindingsOf(t), qs, u, Lookup(t.slot, u))
  {
    hide EventOf, TableHandle;
    if qs != [] {
      RunSlot(t, qs[..|qs| - 1], u);
      RunBindings(t, qs[..|qs| - 1]);
      Effects(Run(t, qs[..|qs| - 1]), EventOf(qs[|qs| - 1]), u, seq(16, _ => '0'));
    }
  }

  lemma {:induction false} PendingStorable(b: Bindings, qs: seq<Request>, d: Device, first: Option<Command>)
    requires Storable(first)
    ensures Storable(Pending(b, qs, d, first))
  {
    hide EventOf, Bound;
    if qs != [] {
      PendingStorable(b, qs[..|qs| - 1], d, first);
    }
  }

  /** With whole handlers atomic, over any store and after any run: the heartbeat of a device that is bound is
      answered with exactly the latest command put in its mailbox since its previous heartbeat, and every
      other heartbeat with just the time. */
  lemma HeartDeliversLatest(db: Db, t: Tables, qs: seq<Request>, h: Packet, first: Option<Command>)
    requires Represents(db, t) && Lookup(t.mailbox, DeviceOf(h)) == TextOf(first) && Storable(first)
    ensures var (_, result, info) := DeviceHeart(RunDb(db, qs), h, LEN_HEART_PACKET_DEVICE, NO_INFO);
      var b, d := BindingsOf(t), DeviceOf(h);
      ReplyOf(result, info) ==
        if d !in Bound(b, qs).userOf then TimeOnly
        else
          match Pending(b, qs, d, first)
          case None => TimeOnly
          case Some(Command(cmd, index, number)) => ReplyFor(cmd, index, BcdParts(number))
  {
    var b, d: Device := BindingsOf(t), DeviceOf(h);
    hide Represents, Run, RunDb, Pending, Bound, DeviceHeart, StoredText, Deliver, ReplyFor, DeviceOf, ReportOf;
    RunRefines(db, t, qs);
    RunBindings(t, qs);
    RunMailbox(t, qs, d, first);
    HeartRefines(RunDb(db, qs), Run(t, qs), h, NO_INFO);
    PendingStorable(b, qs, d, first);
    if Pending(b, qs, d, first).Some? {
      var Command(cmd, index, number) := Pending(b, qs, d, first).value;
      MailboxShort(cmd, index, number);
      CommandRoundTrip(cmd, index, number);
    }
  }

  /** Over any store and after any run: a phone's poll returns the latest report or location of the devices
      bound to it when they sent it (or the one fetched for it), and otherwise what its slot held at first. */
  lemma PollReturnsLatest(db: Db, t: Tables, qs: seq<Request>, p: Packet)
    requires Represents(db, t)
    ensures var u := UserOf(p);
      var text := match LatestReport(BindingsOf(t), qs, u, Lookup(t.slot, u))
                  case None => ""
                  case Some(report) => Cut(report);
      Poll(RunDb(db, qs), p, LEN_HEART_PACKET_PHONE) == (|text|, text)
  {
    hide Represents, Run, RunDb, LatestReport, Poll, PhoneOf;
    RunRefines(db, t, qs);
    RunSlot(t, qs, UserOf(p));
    PollRefines(RunDb(db, qs), Run(t, qs), p);
  }

  /** A device that is not bound when its heartbeat comes gets just the time, a phone that is not bound when it
      posts is refused, and neither changes the store. */
  lemma UnboundNeverServed(db: Db, t: Tables, qs: seq<Request>, p: Packet, newest: Option<string>)
    requires Represents(db, t)
    ensures var now, b := RunDb(db, qs), Bound(BindingsOf(t), qs);
      && (DeviceOf(p) !in b.userOf ==>
            var (after, result, info) := DeviceHeart(now, p, LEN_HEART_PACKET_DEVICE, NO_INFO);
            after == now && ReplyOf(result, info) == TimeOnly)
      && (UserOf(p) !in b.deviceOf ==> PhoneCommand(now, p, LEN_COMMAND_PACKET, newest) == (now, -1))
  {
    var d: Device, u := DeviceOf(p), UserOf(p);
    hide Represents, Run, RunDb, Bound, PhoneCommand, DeviceHeart, DeviceOf, ReplyOf, Print, PhoneOf;
    var now, t1 := RunDb(db, qs), Run(t, qs);
    RunRefines(db, t, qs);
    RunBindings(t, qs);
    GetEntry(now, t1, DeviceBinding(d));
    GetEntry(now, t1, PhoneBinding(u));
    RefusedPackets(now, p, LEN_HEART_PACKET_DEVICE, newest, NO_INFO);
    RefusedPackets(now, p, LEN_COMMAND_PACKET, newest, NO_INFO);
  }

  /** Nothing binds user u in the run, and nothing did before. */
  ghost predicate NeverBound(b: Bindings, qs: seq<Request>, u: User) {
    && u !in b.deviceOf && (forall d: Device :: Lookup(b.userOf, d) != Some(u))
    && forall i :: 0 <= i < |qs| ==> !(qs[i].Binds? && qs[i].u == u)
  }

  lemma {:induction false} NothingFor(b: Bindings, qs: seq<Request>, u: User, first: Option<string>)
    requires NeverBound(b, qs, u)
    ensures u !in Bound(b, qs).deviceOf && forall d: Device :: Lookup(Bound(b, qs).userOf, d) != Some(u)
    ensures LatestReport(b, qs, u, first) == first
  {
    hide PhoneOf, DeviceOf, ReportOf, NumberOf;
    if qs != [] {
      var front, q := qs[..|qs| - 1], qs[|qs| - 1];
      NothingFor(b, front, u, first);
      var now, e := Bound(b, front), EventOf(q);
      assert e.NewBinding? ==> q.Binds? && e.u == q.u != u;
      forall d: Device ensures Lookup(Bound(b, qs).userOf, d) != Some(u) {
        assert Lookup(now.userOf, d) != Some(u);
      }
      assert !(e.Beat? && Lookup(now.userOf, e.d) == Some(u)) && !(e.Place? && Lookup(now.userOf, e.d) == Some(u));
    }
  }

  /** Polls are never refused, but the poll of a phone that is never bound returns after any run what it would
      have returned before it: so nothing, if and only if its slot was empty at first. */
  lemma UnboundPollUnchanged(db: Db, t: Tables, qs: seq<Request>, p: Packet)
    requires Represents(db, t) && NeverBound(BindingsOf(t), qs, UserOf(p))
    ensures Poll(RunDb(db, qs), p, LEN_HEART_PACKET_PHONE) == Poll(db, p, LEN_HEART_PACKET_PHONE)
  {
    hide Represents, RunDb, LatestReport, Poll, PhoneOf, NeverBound;
    PollReturnsLatest(db, t, qs, p);
    PollRefines(db, t, p);
    NothingFor(BindingsOf(t), qs, UserOf(p), Lookup(t.slot, UserOf(p)));
  }

  // ---------- One user, one device ----------

  /** The bindings of u and d, and no others. */
  function Only(u: User, d: Device): Bindings {
    Bindings(map[u := d], map[d := u])
  }

  /** u and d are bound to each other and to nobody else. */
  ghost predicate Paired(b: Bindings, u: User, d: Device) {
    && (forall v: User :: Lookup(b.deviceOf, v) == Some(d) <==> v == u)
    && (forall e: Device :: Lookup(b.userOf, e) == Some(u) <==> e == d)
    && d in b.userOf && u in b.deviceOf
  }

  predicate NoBinds(qs: seq<Request>) {
    forall i :: 0 <= i < |qs| ==> !qs[i].Binds?
  }

  lemma {:induction false} OnlyThese(b: Bindings, qs: seq<Request>, u: User, d: Device, first: Option<Command>,
                                     text: Option<string>)
    requires Paired(b, u, d) && NoBinds(qs)
    ensures Bound(b, qs) == b && Bound(Only(u, d), qs) == Only(u, d)
    ensures Pending(b, qs, d, first) == Pending(Only(u, d), qs, d, first)
    ensures LatestReport(b, qs, u, text) == LatestReport(Only(u, d), qs, u, text)
  {
    hide PhoneOf, DeviceOf, ReportOf, NumberOf;
    if qs != [] {
      OnlyThese(b, qs[..|qs| - 1], u, d, first, text);
    }
  }

  /** Who is served after loading: the pairs on the list, and old pairs of which neither is on it. */
  predicate Served(t: Tables, rows: seq<Row>, u: User, d: Device) {
    (u, d) in rows || (Lookup(t.deviceOf, u) == Some(d) && !HasUser(rows, u))
  }

  lemma ServedPaired(t: Tables, rows: seq<Row>, u: User, d: Device)
    requires MutualInverse(t) && OneToOne(rows) && Settled(t, rows) && Served(t, rows, u, d)
    ensures Paired(BindingsOf(LoadTables(t, rows)), u, d)
  {
    hide LoadTables, OneToOne, Settled, HasUser, HasDevice;
    LoadedInverse(t, rows);
    LoadedRows(t, rows, u, d);
    hide Served;
    var t' := LoadTables(t, rows);
    assert Lookup(t'.deviceOf, u) == Some(d);
    assert Lookup(t'.userOf, d) == Some(u);
  }

  /** After loading a one-to-one list over a store whose old bindings it replaces as a whole or not at all, and
      after any run without new bindings, each pair served lives as if it were alone: the heartbeat is
      answered with exactly the latest command of its own phone or the server, and the poll with the latest
      report or location of its own device. */
  lemma PairsAreServed(db: Db, t: Tables, rows: seq<Row>, qs: seq<Request>, h: Packet, p: Packet,
                       first: Option<Command>)
    requires Represents(db, t) && MutualInverse(t) && OneToOne(rows) && Settled(t, rows)
    requires Served(t, rows, UserOf(p), DeviceOf(h)) && NoBinds(qs)
    requires Lookup(t.mailbox, DeviceOf(h)) == TextOf(first) && Storable(first)
    ensures var now, only := RunDb(LoadDb(db, rows), qs), Only(UserOf(p), DeviceOf(h));
      var (_, result, info) := DeviceHeart(now, h, LEN_HEART_PACKET_DEVICE, NO_INFO);
      var text := match LatestReport(only, qs, UserOf(p), Lookup(t.slot, UserOf(p)))
                  case None => ""
                  case Some(report) => Cut(report);
      && ReplyOf(result, info) ==
           (match Pending(only, qs, DeviceOf(h), first)
            case None => TimeOnly
            case Some(Command(cmd, index, number)) => ReplyFor(cmd, index, BcdParts(number)))
      && Poll(now, p, LEN_HEART_PACKET_PHONE) == (|text|, text)
  {
    var u, d: Device := UserOf(p), DeviceOf(h);
    hide Represents, MutualInverse, OneToOne, Settled, Served, RunDb, LoadDb, LoadTables, Pending, LatestReport;
    hide DeviceHeart, Poll, ReplyOf, ReplyFor, PhoneOf, DeviceOf, NoBinds, StoredText, Bound;
    var t' := LoadTables(t, rows);
    LoadRefines(db, t, rows);
    LoadedRows(t, rows, u, d);
    ServedPaired(t, rows, u, d);
    OnlyThese(BindingsOf(t'), qs, u, d, first, Lookup(t.slot, u));
    HeartDeliversLatest(LoadDb(db, rows), t', qs, h, first);
    PollReturnsLatest(LoadDb(db, rows), t', qs, p);
  }
}
