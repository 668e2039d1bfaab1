/** The handlers that talk to Redis: phoneCommandPacket, deviceHeartPacket, phoneHeaderPacket and the
    loading of the bindings, all over one flat map from string to string. */
module Store {
  import opened Bytes
  import opened HexText
  import opened DecimalText
  import opened Options
  import opened Commands
  import Wire

  type Db = map<string, string>

  /** A received packet; the packet buffer always holds at least this many bytes. */
  type Packet = p: seq<Byte> | |p| >= 32 witness Zeros(32)

  const LEN_COMMAND_PACKET := 16
  const LEN_HEART_PACKET_DEVICE := 32
  const LEN_HEART_PACKET_PHONE := 8
  const LEN_GPS_LOCATION_DATA := 32
  const LEN_LAB_LOCATION_DATA := 48

  /** get_value_fromredis copies at most REDIS_COMMAND_LENGTH - 2 characters. */
  const VALUE_LENGTH := 254

  function Cut(v: string): string {
    if |v| <= VALUE_LENGTH then v else v[..VALUE_LENGTH]
  }

  function Get(db: Db, key: string): Option<string> {
    if key in db then Some(Cut(db[key])) else None
  }

  /** A little-endian 32-bit int. */
  function Int32(b: seq<Byte>): int
    requires |b| == 4
  {
    b[0] + 256 * b[1] + 65536 * b[2] + 16777216 * Signed(b[3])
  }

  function PhoneOf(p: Packet): int { Atoi(Text(p[1..5])) }
  function DeviceOf(p: Packet): string { Text(p[1..9]) }
  function ReportOf(p: Packet): string { "I_" + Text(p[9..21]) + "_" + Print(Int32(p[24..28])) }
  function NumberOf(p: Packet): PhoneNumber { p[7..15] }

  /** phoneCommandPacket; `newest` is the latest location the database has for the device, if any. */
  function PhoneCommand(db: Db, p: Packet, length: int, newest: Option<string>): (Db, int) {
    if length != LEN_COMMAND_PACKET then (db, -3)
    else
      var phone := Print(PhoneOf(p));
      var device := Get(db, "RP_" + phone);
      if device == None then (db, -1)
      else
        match MailboxText(p[5], p[6], NumberOf(p))
        case None => (db, 0)
        case Some(text) =>
          var db1 := if p[5] == CMD_REALTIME_LOCATION && newest.Some? then db[phone := newest.value] else db;
          (db1[device.value := text], 0)
  }

  /** deviceHeartPacket. */
  function DeviceHeart(db: Db, p: Packet, length: int, info: Info): (Db, int, Info) {
    if length != LEN_HEART_PACKET_DEVICE then (db, -3, info)
    else
      var device := DeviceOf(p);
      var user := Get(db, "R_" + device);
      if user == None then (db, -1, info)
      else
        var db1 := db[user.value := ReportOf(p)];
        var stored := Get(db1, device);
        if stored == None then (db1, 0, info)
        else
          var (result, info1) := Deliver(stored.value, info);
          (db1 - {device}, result, info1)
  }

  /** A location of a device, as text, goes to the slot of the user bound to it. */
  function Locate(db: Db, device: string, text: string): (Db, int) {
    var user := Get(db, "R_" + device);
    if user == None then (db, -1) else (db[user.value := text], 0)
  }

  /** deviceLocationPacket, for the location text `text` made from the packet. A packet for the location
      service only starts the thread that asks it; its answer comes later, through Locate. */
  function LocationPacket(db: Db, p: Packet, length: int, text: string): (Db, int) {
    if length != LEN_GPS_LOCATION_DATA && length != LEN_LAB_LOCATION_DATA then (db, -3)
    else
      var (db1, result) := Locate(db, DeviceOf(p), text);
      (if length == LEN_GPS_LOCATION_DATA then db1 else db, result)
  }

  /** The end of ubloxDownloadApgs: the device is told that its agps data is there. */
  function Announce(db: Db, device: string): Db {
    db[device := SingleText(CMD_AGPS_DOWNLOAD)]
  }

  /** Both bindings of a user and a device, as the loader and the synchronisation of the user database
      write them. */
  function Bind(db: Db, user: string, device: string): Db {
    db["RP_" + user := device]["R_" + device := user]
  }

  /** phoneHeaderPacket: the length and text of the poll's answer. */
  function Poll(db: Db, p: Packet, length: int): (int, string) {
    if length != LEN_HEART_PACKET_PHONE then (-3, "")
    else
      var value := Get(db, Print(PhoneOf(p)));
      if value == None then (0, "") else (|value.value|, value.value)
  }

  /** Lengths that are not a handler's own: 16 for a command, 32 for a heartbeat, 8 for a poll, 32 or 48 for a
      location. */
  lemma WrongLength(db: Db, p: Packet, length: int, newest: Option<string>, info: Info, text: string)
    ensures length != 16 <==> PhoneCommand(db, p, length, newest).1 == -3
    ensures length != 16 ==> PhoneCommand(db, p, length, newest).0 == db
    ensures length != 32 ==> DeviceHeart(db, p, length, info) == (db, -3, info)
    ensures length != 8 ==> Poll(db, p, length) == (-3, "")
    ensures length == 8 ==> Poll(db, p, length).0 == |Poll(db, p, length).1|
    ensures length !in {32, 48} <==> LocationPacket(db, p, length, text).1 == -3
    ensures length != 32 ==> LocationPacket(db, p, length, text).0 == db
  {
  }

  /** Packets of the wrong length and unbound senders leave the store alone; the heartbeat of an unbound
      device is still answered with the time, one of the wrong length not at all. */
  lemma RefusedPackets(db: Db, p: Packet, length: int, newest: Option<string>, info: Info)
    ensures length != LEN_COMMAND_PACKET || Get(db, "RP_" + Print(PhoneOf(p))) == None ==>
              PhoneCommand(db, p, length, newest) == (db, if length != LEN_COMMAND_PACKET then -3 else -1)
    ensures length == LEN_COMMAND_PACKET && Get(db, "RP_" + Print(PhoneOf(p))).Some?
            && !IsSetting(p[5]) && !IsSingle(p[5]) ==>
              PhoneCommand(db, p, length, newest) == (db, 0)
    ensures length != LEN_HEART_PACKET_DEVICE || Get(db, "R_" + DeviceOf(p)) == None ==>
              var (after, result, info1) := DeviceHeart(db, p, length, info);
              && after == db && info1 == info
              && ReplyOf(result, info1) == if length != LEN_HEART_PACKET_DEVICE then NoReply else TimeOnly
  {
  }

  lemma LowByteEqual(a: Byte, high: int, b: Byte, high': int)
    requires a + 256 * high == b + 256 * high'
    ensures a == b && high == high'
  {
  }

  lemma Int32Injective(a: seq<Byte>, b: seq<Byte>)
    requires |a| == |b| == 4 && Int32(a) == Int32(b)
    ensures a == b
  {
    LowByteEqual(a[0], a[1] + 256 * (a[2] + 256 * Signed(a[3])), b[0], b[1] + 256 * (b[2] + 256 * Signed(b[3])));
    LowByteEqual(a[1], a[2] + 256 * Signed(a[3]), b[1], b[2] + 256 * Signed(b[3]));
    LowByteEqual(a[2], Signed(a[3]), b[2], Signed(b[3]));
  }

  /** A heartbeat's report loses nothing: it determines the device information and the time stamp. */
  lemma ReportComplete(p: Packet, q: Packet)
    requires ReportOf(p) == ReportOf(q)
    ensures p[9..21] == q[9..21] && p[24..28] == q[24..28]
  {
    hide Text, Print, Int32;
    var a, b := Text(p[9..21]), Text(q[9..21]);
    assert ReportOf(p)[2..26] == a && ReportOf(q)[2..26] == b;
    assert ReportOf(p)[27..] == Print(Int32(p[24..28])) && ReportOf(q)[27..] == Print(Int32(q[24..28]));
    TextInjective(p[9..21], q[9..21]);
    PrintInjective(Int32(p[24..28]), Int32(q[24..28]));
    Int32Injective(p[24..28], q[24..28]);
  }

  lemma ReportShort(p: Packet)
    ensures |ReportOf(p)| <= 38
  {
    hide Digits, Text;
    var n := Int32(p[24..28]);
    assert -0x8000_0000 <= n < 0x8000_0000;
    DigitCount(if n < 0 then -n else n, 10);
    Ten10();
  }

  // ---------- Separate tables ----------

  /** A device number as text: sixteen hexadecimal digits. */
  type Device = d: string | |d| == 16 && forall i :: 0 <= i < |d| ==> IsHexChar(d[i]) witness seq(16, _ => '0')

  /** A user number, a non-negative C int. */
  type User = u: nat | u < 0x8000_0000

  /** The store as four tables. */
  datatype Tables = Tables(deviceOf: map<User, Device>, userOf: map<Device, User>,
                           mailbox: map<Device, string>, slot: map<User, string>)

  /** A place in one of the tables. */
  datatype Key = PhoneBinding(u: User) | DeviceBinding(d: Device) | Mailbox(d: Device) | Slot(u: User)

  /** The flat key a table place is stored under. */
  function KeyText(k: Key): string {
    match k
    case PhoneBinding(u) => "RP_" + Print(u)
    case DeviceBinding(d) => "R_" + d
    case Mailbox(d) => d
    case Slot(u) => Print(u)
  }

  function Entry(t: Tables, k: Key): Option<string> {
    match k
    case PhoneBinding(u) => Lookup(t.deviceOf, u)
    case DeviceBinding(d) => if d in t.userOf then Some(Print(t.userOf[d])) else None
    case Mailbox(d) => Lookup(t.mailbox, d)
    case Slot(u) => Lookup(t.slot, u)
  }

  ghost predicate Represents(db: Db, t: Tables) {
    forall k: Key :: Lookup(db, KeyText(k)) == Entry(t, k)
  }

  lemma UserTextShort(u: User)
    ensures 1 <= |Print(u)| <= 10
  {
    DigitCount(u, 10);
    Ten10();
  }

  lemma Ten10()
    ensures Power10(10) == 10000000000 && Power10(8) == 100000000
  {
    assert Power10(2) == 100;
    assert Power10(4) == 10000;
    assert Power10(6) == 1000000;
    assert Power10(8) == 100000000;
  }

  /** The flat keys of different places are different: the encodings are injective and disjoint. */
  lemma KeysDiffer(a: Key, b: Key)
    ensures KeyText(a) == KeyText(b) <==> a == b
  {
    hide Print;
    if KeyText(a) == KeyText(b) {
      KeyShape(a);
      KeyShape(b);
      match (a, b) {
        case (PhoneBinding(u), PhoneBinding(v)) =>
          assert KeyText(a)[3..] == Print(u) && KeyText(b)[3..] == Print(v);
          PrintInjective(u, v);
        case (DeviceBinding(c), DeviceBinding(d)) =>
          assert KeyText(a)[2..] == c && KeyText(b)[2..] == d;
        case (Slot(u), Slot(v)) => PrintInjective(u, v);
        case _ =>
      }
    }
  }

  /** Each kind of key is recognised by its first characters and its length. */
  lemma KeyShape(k: Key)
    ensures var s := KeyText(k);
      && |s| >= 1
      && (k.PhoneBinding? <==> s[0] == 'R' && s[1] == 'P')
      && (k.DeviceBinding? <==> s[0] == 'R' && s[1] == '_')
      && (k.Mailbox? <==> s[0] != 'R' && |s| == 16)
      && (k.Slot? <==> s[0] != 'R' && |s| <= 10)
  {
    match k {
      case Mailbox(d) => assert IsHexChar(d[0]);
      case Slot(u) =>
        UserTextShort(u);
        assert IsDigit(Digits(u)[0]);
      case _ =>
    }
  }

  /** Writing under the key of one place changes that place only. */
  lemma WriteOne(db: Db, t: Tables, t': Tables, k: Key, v: string)
    requires Represents(db, t)
    requires forall j: Key :: Entry(t', j) == if j == k then Some(v) else Entry(t, j)
    ensures Represents(db[KeyText(k) := v], t')
  {
    hide KeyText, Entry;
    var db' := db[KeyText(k) := v];
    forall j: Key ensures Lookup(db', KeyText(j)) == Entry(t', j) {
      KeysDiffer(j, k);
      assert Lookup(db, KeyText(j)) == Entry(t, j);
    }
  }

  lemma DeleteOne(db: Db, t: Tables, t': Tables, k: Key)
    requires Represents(db, t)
    requires forall j: Key :: Entry(t', j) == if j == k then None else Entry(t, j)
    ensures Represents(db - {KeyText(k)}, t')
  {
    hide KeyText, Entry;
    var db' := db - {KeyText(k)};
    forall j: Key ensures Lookup(db', KeyText(j)) == Entry(t', j) {
      KeysDiffer(j, k);
      assert Lookup(db, KeyText(j)) == Entry(t, j);
    }
  }

  // ---------- The handlers on the tables ----------

  function TableCommand(t: Tables, u: User, cmd: Byte, index: Byte, number: PhoneNumber, newest: Option<string>):
    (Tables, int)
  {
    if u !in t.deviceOf then (t, -1)
    else
      match MailboxText(cmd, index, number)
      case None => (t, 0)
      case Some(text) =>
        var t1 := if cmd == CMD_REALTIME_LOCATION && newest.Some? then t.(slot := t.slot[u := newest.value]) else t;
        (t1.(mailbox := t1.mailbox[t.deviceOf[u] := text]), 0)
  }

  function TableHeart(t: Tables, d: Device, report: string, info: Info): (Tables, int, Info) {
    if d !in t.userOf then (t, -1, info)
    else
      var t1 := t.(slot := t.slot[t.userOf[d] := report]);
      if d !in t.mailbox then (t1, 0, info)
      else
        var (result, info1) := Deliver(Cut(t.mailbox[d]), info);
        (t1.(mailbox := t.mailbox - {d}), result, info1)
  }

  function TableLocate(t: Tables, d: Device, text: string): Tables {
    if d in t.userOf then t.(slot := t.slot[t.userOf[d] := text]) else t
  }

  function TableAnnounce(t: Tables, d: Device): Tables {
    t.(mailbox := t.mailbox[d := SingleText(CMD_AGPS_DOWNLOAD)])
  }

  function TableBind(t: Tables, u: User, d: Device): Tables {
    t.(deviceOf := t.deviceOf[u := d], userOf := t.userOf[d := u])
  }

  function TablePoll(t: Tables, u: User): string {
    if u in t.slot then Cut(t.slot[u]) else ""
  }

  // ---------- The flat store refines the tables ----------

  lemma Scale(a: nat, b: nat, p: nat)
    requires a <= b
    ensures a * p <= b * p
  {
    assert (b - a) * p >= 0;
  }

  lemma Tenfold(a: nat, p: nat)
    ensures a * 10 * p == a * (10 * p)
  {
  }

  lemma {:induction false} ReadBound(s: string, sofar: nat)
    ensures ReadDigits(s, sofar) < (sofar + 1) * Power10(|s|)
    decreases |s|
  {
    if s != [] && IsDigit(s[0]) {
      var next, p := sofar * 10 + (s[0] as int - 0x30), Power10(|s| - 1);
      ReadBound(s[1..], next);
      assert ReadDigits(s, sofar) == ReadDigits(s[1..], next);
      assert Power10(|s|) == 10 * p;
      hide ReadDigits, Power10;
      Scale(next + 1, (sofar + 1) * 10, p);
      Tenfold(sofar + 1, p);
    } else {
      Scale(1, Power10(|s|), sofar + 1);
    }
  }

  /** The phone number read from a packet is a user number. */
  lemma PhoneIsUser(p: Packet)
    ensures 0 <= PhoneOf(p) < 100000000
  {
    var s := Text(p[1..5]);
    ReadBound(s, 0);
    Ten10();
    assert IsHexChar(s[0]);
    if IsDigit(s[0]) {
      AtoiPlain(s);
    } else {
      assert Atoi(s) == ReadDigits(s, 0);
    }
  }

  // ---------- The packets' fields ----------

  /** Reading two decimal digits. */
  lemma ReadPair(x: char, y: char, rest: string, sofar: nat)
    requires IsDigit(x) && IsDigit(y)
    ensures ReadDigits([x, y] + rest, sofar) ==
            ReadDigits(rest, sofar * 100 + (x as int - 0x30) * 10 + (y as int - 0x30))
  {
    var s := [x, y] + rest;
    assert s[1..] == [y] + rest && s[1..][1..] == rest;
    assert ReadDigits(s, sofar) == ReadDigits(s[1..], sofar * 10 + (x as int - 0x30));
  }

  lemma {:induction false} ReadBcd(bytes: seq<Byte>, sofar: nat)
    requires IsBcd(bytes)
    ensures ReadDigits(Text(bytes), sofar) == BcdValue(bytes, sofar)
    decreases |bytes|
  {
    if bytes != [] {
      var b := bytes[0];
      var x, y, rest := NibbleChar(b / 16), NibbleChar(b % 16), Text(bytes[1..]);
      assert IsBcdByte(b);
      assert Text(bytes) == [x, y] + rest;
      hide Text, ReadDigits;
      ReadPair(x, y, rest, sofar);
      ReadBcd(bytes[1..], sofar * 100 + Wire.Decimal(b));
    }
  }

  /** The number whose decimal digits are the nibbles of the bytes, behind those of `sofar`. */
  function BcdValue(bytes: seq<Byte>, sofar: nat): nat {
    if bytes == [] then sofar else BcdValue(bytes[1..], sofar * 100 + Wire.Decimal(bytes[0]))
  }

  lemma BcdOfFour(b: seq<Byte>)
    requires |b| == 4
    ensures BcdValue(b, 0) ==
            Wire.Decimal(b[0]) * 1000000 + Wire.Decimal(b[1]) * 10000 + Wire.Decimal(b[2]) * 100 + Wire.Decimal(b[3])
  {
    var w: nat, x: nat, y: nat := Wire.Decimal(b[0]), Wire.Decimal(b[1]), Wire.Decimal(b[2]);
    hide Wire.Decimal;
    assert b[1..][1..] == b[2..] && b[2..][1..] == b[3..] && b[3..][1..] == [];
    assert BcdValue(b, 0) == BcdValue(b[1..], w);
    assert BcdValue(b[1..], w) == BcdValue(b[2..], w * 100 + x);
    assert BcdValue(b[2..], w * 100 + x) == BcdValue(b[3..], (w * 100 + x) * 100 + y);
  }

  /** The phone of a packet with decimal digits in bytes 1 to 4 is the number with these eight digits. */
  lemma PhoneDigits(p: Packet)
    requires forall i :: 1 <= i <= 4 ==> p[i] / 16 < 10 && p[i] % 16 < 10
    ensures PhoneOf(p) ==
            Wire.Decimal(p[1]) * 1000000 + Wire.Decimal(p[2]) * 10000 + Wire.Decimal(p[3]) * 100 + Wire.Decimal(p[4])
  {
    var b := p[1..5];
    assert IsBcd(b);
    hide Text, ReadDigits, Atoi, Wire.Decimal, BcdValue;
    ReadBcd(b, 0);
    TextDigits(b);
    AtoiPlain(Text(b));
    BcdOfFour(b);
  }

  /** A packet that begins with a byte and a phone number is that phone's. */
  lemma PhoneSent(p: Packet, phone: nat)
    requires phone < 100000000 && p[1..5] == Wire.Phone(phone)
    ensures PhoneOf(p) == phone
  {
    var b, m := Wire.Phone(phone), phone / 100;
    assert p[1] == b[0] && p[2] == b[1] && p[3] == b[2] && p[4] == b[3];
    Wire.DecimalOfBcd(m / 100 / 100);
    Wire.DecimalOfBcd(m / 100 % 100);
    Wire.DecimalOfBcd(m % 100);
    Wire.DecimalOfBcd(phone % 100);
    hide PhoneOf, Wire.Decimal, Wire.BcdByte;
    PhoneDigits(p);
    hide Wire.Phone;
    assert phone == 100 * m + phone % 100 && m == 100 * (m / 100) + m % 100;
  }

  lemma Int32Sent(n: int)
    requires -0x8000_0000 <= n < 0x8000_0000
    ensures Int32(Wire.Int32Bytes(n)) == n
  {
    var n1 := n / 256;
    var n2 := n1 / 256;
    var n3 := n2 / 256;
    assert n == 256 * n1 + n % 256 && n1 == 256 * n2 + n1 % 256 && n2 == 256 * n3 + n2 % 256;
    assert -128 <= n3 < 128;
    assert Signed(n3 % 256) == n3;
  }

  /** The fields of a command are read where they were put. */
  lemma CommandSent(phone: nat, cmd: Byte, index: Byte, number: PhoneNumber, rest: seq<Byte>)
    requires phone < 100000000 && |rest| >= 17
    ensures var p: Packet := Wire.CommandPacket(phone, cmd, index, number, rest);
      PhoneOf(p) == phone && p[5] == cmd && p[6] == index && NumberOf(p) == number
  {
    var p: Packet := Wire.CommandPacket(phone, cmd, index, number, rest);
    assert p[1..5] == Wire.Phone(phone) && p[7..15] == number;
    hide PhoneOf, Wire.Phone;
    PhoneSent(p, phone);
  }

  /** A heartbeat's device, and the report made from its information and time stamp. */
  lemma HeartbeatSent(id: seq<Byte>, info: seq<Byte>, gap: seq<Byte>, time: int, rest: seq<Byte>)
    requires |id| == 8 && |info| == 12 && |gap| == 3 && |rest| >= 4
    requires -0x8000_0000 <= time < 0x8000_0000
    ensures var h: Packet := Wire.Heartbeat(id, info, gap, time, rest);
      DeviceOf(h) == Text(id) && ReportOf(h) == "I_" + Text(info) + "_" + Print(time)
  {
    var h: Packet := Wire.Heartbeat(id, info, gap, time, rest);
    assert h[1..9] == id && h[9..21] == info && h[24..28] == Wire.Int32Bytes(time);
    hide Text, Print, Wire.Int32Bytes, Int32;
    Int32Sent(time);
  }

  lemma PollSent(phone: nat, rest: seq<Byte>)
    requires phone < 100000000 && |rest| >= 27
    ensures PhoneOf(Wire.PollPacket(phone, rest)) == phone
  {
    var q: Packet := Wire.PollPacket(phone, rest);
    assert q[1..5] == Wire.Phone(phone);
    hide PhoneOf, Wire.Phone;
    PhoneSent(q, phone);
  }

  lemma LocationSent(id: seq<Byte>, rest: seq<Byte>)
    requires |id| == 8 && |rest| >= 23
    ensures DeviceOf(Wire.LocationPacket(id, rest)) == Text(id)
  {
    assert Wire.LocationPacket(id, rest)[1..9] == id;
  }

  lemma GetEntry(db: Db, t: Tables, k: Key)
    requires Represents(db, t)
    ensures Get(db, KeyText(k)) == match Entry(t, k) case None => None case Some(v) => Some(Cut(v))
  {
    assert Lookup(db, KeyText(k)) == Entry(t, k);
  }

  lemma CommandRefines(db: Db, t: Tables, p: Packet, newest: Option<string>)
    requires Represents(db, t)
    ensures 0 <= PhoneOf(p) < 100000000
    ensures var (db', result) := PhoneCommand(db, p, LEN_COMMAND_PACKET, newest);
      var (t', result') := TableCommand(t, PhoneOf(p), p[5], p[6], NumberOf(p), newest);
      Represents(db', t') && result == result'
  {
    PhoneIsUser(p);
    hide MailboxText, Print, PhoneOf, Represents;
    var u: User := PhoneOf(p);
    GetEntry(db, t, PhoneBinding(u));
    if u in t.deviceOf && MailboxText(p[5], p[6], NumberOf(p)).Some? {
      var d := t.deviceOf[u];
      var db1, t1 := db, t;
      if p[5] == CMD_REALTIME_LOCATION && newest.Some? {
        db1, t1 := db[Print(u) := newest.value], t.(slot := t.slot[u := newest.value]);
        WriteOne(db, t, t1, Slot(u), newest.value);
      }
      var text := MailboxText(p[5], p[6], NumberOf(p)).value;
      WriteOne(db1, t1, t1.(mailbox := t1.mailbox[d := text]), Mailbox(d), text);
    }
  }

  lemma HeartRefines(db: Db, t: Tables, p: Packet, info: Info)
    requires Represents(db, t)
    ensures var (db', result, info1) := DeviceHeart(db, p, LEN_HEART_PACKET_DEVICE, info);
      var (t', result', info1') := TableHeart(t, DeviceOf(p), ReportOf(p), info);
      Represents(db', t') && result == result' && info1 == info1'
  {
    hide Deliver, Print, Represents, ReportOf, Text;
    var d: Device := DeviceOf(p);
    GetEntry(db, t, DeviceBinding(d));
    if d in t.userOf {
      var u := t.userOf[d];
      UserTextShort(u);
      var db1, t1 := db[Print(u) := ReportOf(p)], t.(slot := t.slot[u := ReportOf(p)]);
      WriteOne(db, t, t1, Slot(u), ReportOf(p));
      GetEntry(db1, t1, Mailbox(d));
      if d in t.mailbox {
        DeleteOne(db1, t1, t1.(mailbox := t.mailbox - {d}), Mailbox(d));
      }
    }
  }

  lemma LocateRefines(db: Db, t: Tables, d: Device, text: string)
    requires Represents(db, t)
    ensures var (db', result) := Locate(db, d, text);
      Represents(db', TableLocate(t, d, text)) && (result == 0 <==> d in t.userOf)
  {
    hide Print, Represents;
    GetEntry(db, t, DeviceBinding(d));
    if d in t.userOf {
      UserTextShort(t.userOf[d]);
      WriteOne(db, t, TableLocate(t, d, text), Slot(t.userOf[d]), text);
    }
  }

  lemma AnnounceRefines(db: Db, t: Tables, d: Device)
    requires Represents(db, t)
    ensures Represents(Announce(db, d), TableAnnounce(t, d))
  {
    hide Represents, SingleText;
    WriteOne(db, t, TableAnnounce(t, d), Mailbox(d), SingleText(CMD_AGPS_DOWNLOAD));
  }

  lemma BindRefines(db: Db, t: Tables, u: User, d: Device)
    requires Represents(db, t)
    ensures Represents(Bind(db, Print(u), d), TableBind(t, u, d))
  {
    hide Represents, Print;
    var t1 := t.(deviceOf := t.deviceOf[u := d]);
    WriteOne(db, t, t1, PhoneBinding(u), d);
    WriteOne(db["RP_" + Print(u) := d], t1, TableBind(t, u, d), DeviceBinding(d), Print(u));
  }

  lemma PollRefines(db: Db, t: Tables, p: Packet)
    requires Represents(db, t)
    ensures 0 <= PhoneOf(p) < 100000000
    ensures Poll(db, p, LEN_HEART_PACKET_PHONE) == (|TablePoll(t, PhoneOf(p))|, TablePoll(t, PhoneOf(p)))
  {
    PhoneIsUser(p);
    GetEntry(db, t, Slot(PhoneOf(p)));
  }
}
