/** The Redis-backed handlers as code, over a server that owns the store. */
module Server {
  import opened Bytes
  import opened HexText
  import opened DecimalText
  import opened Separation
  import opened Options
  import opened Commands
  import opened Store
  import opened Routing

  /** A text that, if it is long enough to be split, has pieces that fit the 32-byte array of Separation. */
  predicate PiecesFit(stored: string) {
    |stored| >= 4 ==> forall i :: 0 <= i < |Split(stored, '_')| ==> |Split(stored, '_')[i]| < 32
  }

  /** The mailbox text this heartbeat will find fits. */
  predicate MailboxFits(db: Db, p: Packet) {
    var user := Get(db, "R_" + DeviceOf(p));
    user.Some? ==>
      var stored := Get(db[user.value := ReportOf(p)], DeviceOf(p));
      stored.Some? ==> PiecesFit(stored.value)
  }

  /** Every text that is put in a mailbox fits. */
  lemma StoredTextFits(cmd: Byte, index: Byte, number: PhoneNumber)
    ensures PiecesFit(Cut(StoredText(cmd, index, number)))
  {
    hide Digits, Split;
    MailboxShort(cmd, index, number);
    if IsSetting(cmd) {
      SettingSplits(cmd, index, number);
      SmallDigits(cmd);
      SmallDigits(if Signed(index) < 0 then -Signed(index) else Signed(index));
    } else {
      LengthTells(cmd, index, number);
    }
  }

  /** Every text in a mailbox is one that fits. */
  ghost predicate AllFit(t: Tables) {
    forall d: Device :: d in t.mailbox ==> PiecesFit(Cut(t.mailbox[d]))
  }

  lemma {:induction false} RunFits(t: Tables, qs: seq<Request>)
    requires AllFit(t)
    ensures AllFit(Run(t, qs))
  {
    hide PiecesFit, StoredText, SingleText, Deliver, EventOf, Cut;
    if qs != [] {
      RunFits(t, qs[..|qs| - 1]);
      var e := EventOf(qs[|qs| - 1]);
      if e.Post? {
        StoredTextFits(e.command.cmd, e.command.index, e.command.number);
      }
      StoredTextFits(CMD_AGPS_DOWNLOAD, 0, Zeros(LEN_PHONE_NUMBER));
      AnnouncedText();
    }
  }

  /** So over a store whose mailboxes hold only such texts (empty ones, say), deviceHeartPacket never meets
      another: no run of requests can make the piece array overflow. */
  lemma MailboxAlwaysFits(db: Db, t: Tables, qs: seq<Request>, p: Packet)
    requires Represents(db, t) && AllFit(t)
    ensures MailboxFits(RunDb(db, qs), p)
  {
    hide Represents, RunDb, Run, AllFit, MailboxFits;
    RunRefines(db, t, qs);
    RunFits(t, qs);
    FitsNow(RunDb(db, qs), Run(t, qs), p);
  }

  lemma FitsNow(db: Db, t: Tables, p: Packet)
    requires Represents(db, t) && AllFit(t)
    ensures MailboxFits(db, p)
  {
    var d: Device := DeviceOf(p);
    hide Represents, PiecesFit, DeviceOf, ReportOf, Print, Cut, Get;
    GetEntry(db, t, DeviceBinding(d));
    if d in t.userOf {
      var u := t.userOf[d];
      ShortCut(u);
      var t1 := t.(slot := t.slot[u := ReportOf(p)]);
      WriteOne(db, t, t1, Slot(u), ReportOf(p));
      GetEntry(db[Print(u) := ReportOf(p)], t1, Mailbox(d));
    }
  }

  lemma ShortCut(u: User)
    ensures Cut(Print(u)) == Print(u)
  {
    UserTextShort(u);
  }

  class Server {
    var db: Db

    constructor ()
      ensures db == map[]
    {
      db := map[];
    }

    method GetValue(key: string) returns (value: Option<string>)
      ensures value == Get(db, key)
      ensures value == if key !in db then None else Some(if |db[key]| <= 254 then db[key] else db[key][..254])
    {
      if key !in db { return None; }
      var reply := db[key];
      var copied := "";
      var i := 0;
      while i < |reply| && i < VALUE_LENGTH
        invariant 0 <= i <= |reply| && i <= VALUE_LENGTH && copied == reply[..i]
      {
        copied := copied + [reply[i]];
        i := i + 1;
      }
      assert i == |reply| ==> reply[..i] == reply;
      return Some(copied);
    }

    method NumberText(bytes: seq<Byte>) returns (text: string)
      ensures text == Text(bytes)
    {
      var id := new char[2 * |bytes| + 1](_ => 0 as char);
      HexToString(id, bytes, |bytes|);
      assert bytes[..|bytes|] == bytes;
      text := id[..2 * |bytes|];
    }

    method PhoneCommandPacket(packet: Packet, length: int, newest: Option<string>) returns (result: int)
      modifies this
      ensures (db, result) == PhoneCommand(old(db), packet, length, newest)
    {
      if length != LEN_COMMAND_PACKET { return -3; }
      var u8PhoneId := NumberText(packet[1..5]);
      var device := GetValue("RP_" + Print(Atoi(u8PhoneId)));
      if device == None { return -1; }
      var cmd := packet[5];
      if CheckPhoneCommand(cmd) == 4 {
        if cmd != CMD_FREQ_SET {
          var u8PhoneNumber := NumberText(packet[7..15]);
          db := db[device.value := Print(Signed(cmd)) + "_" + Print(Signed(packet[6])) + "_" + u8PhoneNumber];
        } else {
          db := db[device.value := Print(Signed(cmd)) + "_" + Print(Signed(packet[6]))];
        }
      } else if CheckPhoneCommand(cmd) == 7 {
      } else if CheckPhoneCommand(cmd) == 3 {
      } else if 0 <= CheckPhoneCommand(cmd) {
        if cmd == CMD_REALTIME_LOCATION && newest.Some? {
          db := db[Print(Atoi(u8PhoneId)) := newest.value];
        }
        db := db[device.value := Print(cmd)];
      }
      return 0;
    }

    method DeviceHeartPacket(packet: Packet, length: int, info: array<Byte>) returns (result: int)
      requires info.Length == LEN_HEARTPACKET_RETURN && MailboxFits(db, packet)
      modifies this, info
      ensures (db, result, info[..]) == DeviceHeart(old(db), packet, length, old(info[..]))
    {
      if length != LEN_HEART_PACKET_DEVICE { return -3; }
      var u8DeviceId := NumberText(packet[1..9]);
      var user := GetValue("R_" + u8DeviceId);
      if user == None { return -1; }
      var u8DeviceInfo := NumberText(packet[9..21]);
      db := db[user.value := "I_" + u8DeviceInfo + "_" + Print(Int32(packet[24..28]))];
      var stored := GetValue(u8DeviceId);
      if stored == None { return 0; }
      result := Answer(stored.value, info);
      db := db - {u8DeviceId};
    }

    /** The part of deviceHeartPacket that reads the mailbox text. */
    method Answer(stored: string, info: array<Byte>) returns (result: int)
      requires info.Length == LEN_HEARTPACKET_RETURN
      requires PiecesFit(stored)
      modifies info
      ensures (result, info[..]) == Deliver(stored, old(info[..]))
    {
      if |stored| < 4 {
        var single := Atoi(stored);
        return if single < 0 || single > 254 then -4 else single;
      }
      var table := new string[1](_ => "");
      var param, count := Separate('_', stored, table);
      assert forall i :: 0 <= i < count ==> param[i] == param[..count][i];
      hide Split, Atoi;
      ghost var before: Info := info[..];
      var cmd := Atoi(param[0]);
      info[3] := LowByte(cmd);
      if HighNibble(info[3]) == 0x40 && count > 1 {
        info[4] := LowByte(Atoi(param[1]));
        if count == 3 && |param[2]| >= 2 * LEN_PHONE_NUMBER {
          ghost var head := info[..];
          CopyNumber(info, param[2]);
          assert info[..] == head[..5] + FromText(param[2][..2 * LEN_PHONE_NUMBER]) + head[13..];
        }
      }
      return HighNibble(cmd);
    }

    /** The STRINGTOHEX loop and the memcpy of the number into the reply. */
    method CopyNumber(info: array<Byte>, text: string)
      requires info.Length == LEN_HEARTPACKET_RETURN && |text| >= 2 * LEN_PHONE_NUMBER
      modifies info
      ensures info[..] == old(info[..5]) + FromText(text[..2 * LEN_PHONE_NUMBER]) + old(info[13..])
    {
      var digits := new char[|text|](i requires 0 <= i < |text| => text[i]);
      assert digits[..2 * LEN_PHONE_NUMBER] == text[..2 * LEN_PHONE_NUMBER];
      var number := StringToHex(digits, LEN_PHONE_NUMBER);
      var i := 0;
      while i < LEN_PHONE_NUMBER
        invariant 0 <= i <= LEN_PHONE_NUMBER
        invariant forall j :: 0 <= j < info.Length ==> info[j] == if 5 <= j < 5 + i then number[j - 5] else old(info[j])
      {
        info[5 + i] := number[i];
        i := i + 1;
      }
    }

    method DeviceLocationPacket(packet: Packet, length: int, text: string) returns (result: int)
      modifies this
      ensures (db, result) == LocationPacket(old(db), packet, length, text)
    {
      if length != LEN_GPS_LOCATION_DATA && length != LEN_LAB_LOCATION_DATA { return -3; }
      var u8DeviceId := NumberText(packet[1..9]);
      var user := GetValue("R_" + u8DeviceId);
      if user == None { return -1; }
      if length == LEN_GPS_LOCATION_DATA {
        db := db[user.value := text];
      } else if length == LEN_LAB_LOCATION_DATA {
      }
      return 0;
    }

    method PhoneHeaderPacket(packet: Packet, length: int) returns (result: int, info: string)
      ensures (result, info) == Poll(db, packet, length)
    {
      if length != LEN_HEART_PACKET_PHONE { return -3, ""; }
      var u8PhoneId := NumberText(packet[1..5]);
      var value := GetValue(Print(Atoi(u8PhoneId)));
      info := if value == None then "" else value.value;
      result := |info|;
    }

    method InitRelationships(rows: seq<Row>)
      modifies this
      ensures db == LoadDb(old(db), rows)
    {
      var i := 0;
      assert rows[..0] == [];
      while i < |rows|
        invariant 0 <= i <= |rows| && db == LoadDb(old(db), rows[..i])
      {
        var (userId, deviceId) := rows[i];
        assert rows[..i + 1][..i] == rows[..i];
        db := db["RP_" + Print(userId) := deviceId];
        db := db["R_" + deviceId := Print(userId)];
        i := i + 1;
      }
      assert rows[..i] == rows;
    }
  }
}
