/** Phone commands as mailbox text, and the heartbeat reply that delivers them. */
module Commands {
  import opened Bytes
  import opened HexText
  import opened DecimalText
  import opened Options
  import opened Separation

  const LEN_PHONE_NUMBER := 8
  const LEN_HEARTPACKET_RETURN := 20
  const CMD_FREQ_SET: Byte := 0x44
  const CMD_REALTIME_LOCATION: Byte := 0x01
  const CMD_AGPS_DOWNLOAD: Byte := 0x2B

  /** The command classes; -1 for a byte that is no command. */
  function CheckPhoneCommand(cmd: Byte): int {
    if 0x81 <= cmd <= 0x86 then 8
    else if cmd == 0x71 || cmd == 0x72 || cmd == 0x73 then 7
    else if 0x61 <= cmd <= 0x64 then 6
    else if 0x51 <= cmd <= 0x54 then 5
    else if 0x41 <= cmd <= 0x44 then 4
    else if cmd == 0x31 || cmd == 0x32 then 3
    else if cmd == 0x21 then 2
    else if cmd == 0x1A then 1
    else if 0x01 <= cmd <= 0x06 || 0x08 <= cmd <= 0x0B then 0
    else -1
  }

  predicate IsSetting(cmd: Byte) { CheckPhoneCommand(cmd) == 4 }

  /** Stored as a single number. */
  predicate IsSingle(cmd: Byte) { CheckPhoneCommand(cmd) in {0, 1, 2, 5, 6, 8} }

  /** Stored when a phone posts it. */
  predicate IsPosted(cmd: Byte) { IsSetting(cmd) || IsSingle(cmd) }

  /** Exactly these commands are stored, and a settings command is exactly one whose high nibble is 4. */
  lemma StoredCommands(cmd: Byte)
    ensures IsSetting(cmd) <==> cmd in {0x41, 0x42, 0x43, 0x44}
    ensures IsSingle(cmd) <==> cmd in {0x01, 0x02, 0x03, 0x04, 0x05, 0x06, 0x08, 0x09, 0x0A, 0x0B, 0x1A, 0x21,
                                       0x51, 0x52, 0x53, 0x54, 0x61, 0x62, 0x63, 0x64,
                                       0x81, 0x82, 0x83, 0x84, 0x85, 0x86}
    ensures IsSetting(cmd) || IsSingle(cmd) ==> (IsSetting(cmd) <==> HighNibble(cmd) == 0x40)
  {
  }

  type PhoneNumber = n: seq<Byte> | |n| == LEN_PHONE_NUMBER witness Zeros(LEN_PHONE_NUMBER)

  /** "%d_%d" or "%d_%d_%s" of the signed command and index bytes and the number's text. */
  function SettingText(cmd: Byte, index: Byte, number: PhoneNumber): string {
    if cmd != CMD_FREQ_SET then Print(Signed(cmd)) + "_" + Print(Signed(index)) + "_" + Text(number)
    else Print(Signed(cmd)) + "_" + Print(Signed(index))
  }

  /** "%d" of the unsigned command byte. */
  function SingleText(cmd: Byte): string {
    Print(cmd)
  }

  function StoredText(cmd: Byte, index: Byte, number: PhoneNumber): string {
    if IsSetting(cmd) then SettingText(cmd, index, number) else SingleText(cmd)
  }

  /** What phoneCommandPacket puts in the mailbox, if anything. */
  function MailboxText(cmd: Byte, index: Byte, number: PhoneNumber): Option<string> {
    if IsPosted(cmd) then Some(StoredText(cmd, index, number)) else None
  }

  /** The commands that can be in a mailbox: those phones post, and the server's own, which tells a device
      that its agps data has been fetched. */
  predicate IsStored(cmd: Byte) {
    IsPosted(cmd) || cmd == CMD_AGPS_DOWNLOAD
  }

  type Info = b: seq<Byte> | |b| == LEN_HEARTPACKET_RETURN witness Zeros(LEN_HEARTPACKET_RETURN)

  const NO_INFO: Info := Zeros(LEN_HEARTPACKET_RETURN)

  /** The low byte of an int, as a cast to char keeps it. */
  function LowByte(n: int): Byte { n % 256 }

  /** x & 0xF0. */
  function HighNibble(n: int): int { n % 256 / 16 * 16 }

  /** The reading half of deviceHeartPacket: the value it returns and the reply buffer it fills, for the
      text found in the mailbox. */
  function Deliver(stored: string, info: Info): (int, Info) {
    if |stored| < 4 then
      var cmd := Atoi(stored);
      (if cmd < 0 || cmd > 254 then -4 else cmd, info)
    else
      var param := Split(stored, '_');
      var cmd := Atoi(param[0]);
      var info1: Info := info[3 := LowByte(cmd)];
      if HighNibble(info1[3]) == 0x40 && |param| > 1 then
        var info2: Info := info1[4 := LowByte(Atoi(param[1]))];
        if |param| == 3 && |param[2]| >= 2 * LEN_PHONE_NUMBER then
          (HighNibble(cmd), info2[..5] + FromText(param[2][..2 * LEN_PHONE_NUMBER]) + info2[13..])
        else (HighNibble(cmd), info2)
      else (HighNibble(cmd), info1)
  }

  /** What the heartbeat branch of apolloParsePacket sends back. */
  datatype Reply = Setting(buf: seq<Byte>) | Single(buf: seq<Byte>) | TimeOnly | NoReply

  function ReplyOf(result: int, info: Info): Reply {
    if result > 0 then
      if HighNibble(result) == 0x40 then Setting(info[0 := 'C' as int])
      else Single(['C' as int, 'E' as int, 'T' as int, LowByte(result), 'K' as int, '%' as int])
    else if result == 0 || result == -1 || result == -2 then TimeOnly
    else NoReply
  }

  /** The reply that carries a command: byte 3 the command; for a setting byte 4 the index and, but for
      the frequency setting, bytes 5 to 12 the number. */
  function ReplyFor(cmd: Byte, index: Byte, number: PhoneNumber): Reply {
    if IsSetting(cmd) then
      Setting(['C' as int, 0, 0, cmd, index] + (if cmd == CMD_FREQ_SET then Zeros(8) else number) + Zeros(7))
    else
      Single(['C' as int, 'E' as int, 'T' as int, cmd, 'K' as int, '%' as int])
  }

  /** The replies, byte by byte. */
  lemma ReplyLayout(cmd: Byte, index: Byte, number: PhoneNumber)
    ensures var reply := ReplyFor(cmd, index, number);
      && (cmd in {0x41, 0x42, 0x43, 0x44} ==>
            && reply.Setting? && |reply.buf| == 20
            && reply.buf[0] == 'C' as int && reply.buf[3] == cmd && reply.buf[4] == index
            && reply.buf[5..13] == (if cmd == 0x44 then [0, 0, 0, 0, 0, 0, 0, 0] else number)
            && forall i :: i in {1, 2, 13, 14, 15, 16, 17, 18, 19} ==> reply.buf[i] == 0)
      && (cmd !in {0x41, 0x42, 0x43, 0x44} ==>
            reply == Single(['C' as int, 'E' as int, 'T' as int, cmd, 'K' as int, '%' as int]))
  {
  }

  /** A short text is read as a number; only 0 to 254 can be a command. */
  lemma NumberDelivered(n: int, info: Info)
    requires |Print(n)| < 4
    ensures Deliver(Print(n), info) == (if 0 <= n <= 254 then n else -4, info)
  {
    hide Print, Split, Atoi;
    AtoiOfPrinted(n, []);
    assert Print(n) + [] == Print(n);
  }

  /** A longer text is read piece by piece: the first piece is the command, which goes to byte 3 of the reply buffer;
      if it is a setting, a second piece goes to byte 4 as a number, and a third of at least 16 characters, if there
      is no fourth, to bytes 5 to 12 as a phone number. */
  lemma PiecesDelivered(pieces: seq<string>, info: Info)
    requires pieces != [] && Clean(pieces, '_') && |Join(pieces, '_')| >= 4
    ensures var (result, after) := Deliver(Join(pieces, '_'), info);
      var cmd := Atoi(pieces[0]) % 256;
      var setting := 64 <= cmd < 80 && |pieces| > 1;
      var named := setting && |pieces| == 3 && |pieces[2]| >= 16;
      && result == cmd / 16 * 16 && after[3] == cmd
      && after[4] == (if setting then Atoi(pieces[1]) % 256 else info[4])
      && after[5..13] == (if named then FromText(pieces[2][..16]) else info[5..13])
      && after[..3] == info[..3] && after[13..] == info[13..]
  {
    hide Split, Join, Atoi, FromText, Clean;
    JoinSplit(pieces, '_');
  }

  /** Which results are answered: a command, the time, or nothing at all. */
  lemma ReplyChoice(result: int, info: Info)
    ensures ReplyOf(result, info).NoReply? <==> result < -2
    ensures ReplyOf(result, info).TimeOnly? <==> -2 <= result <= 0
    ensures ReplyOf(result, info).Setting? <==> result > 0 && 64 <= result % 256 < 80
  {
  }

  /** The stored texts: a setting's fields as signed decimal numbers and its number in hexadecimal, with bars
      between; any other command as an unsigned number. */
  lemma StoredLayout(cmd: Byte, index: Byte, number: PhoneNumber)
    ensures StoredText(cmd, index, number) ==
            if cmd in {0x41, 0x42, 0x43} then
              Print(cmd) + "_" + Print(if index < 128 then index else index - 256) + "_" + Text(number)
            else if cmd == 0x44 then Print(cmd) + "_" + Print(if index < 128 then index else index - 256)
            else Print(cmd)
  {
    hide Print, Text;
  }

  lemma PrintHasNoBar(n: int)
    ensures '_' !in Print(n)
  {
    var s := Digits(if n < 0 then -n else n);
    forall i | 0 <= i < |s| ensures s[i] != '_' {
      assert IsDigit(s[i]);
    }
  }

  /** A setting splits back into its fields. */
  lemma SettingSplits(cmd: Byte, index: Byte, number: PhoneNumber)
    ensures Split(SettingText(cmd, index, number), '_') ==
            if cmd != CMD_FREQ_SET then [Print(Signed(cmd)), Print(Signed(index)), Text(number)]
            else [Print(Signed(cmd)), Print(Signed(index))]
  {
    hide Split, Print;
    var a, b, c := Print(Signed(cmd)), Print(Signed(index)), Text(number);
    PrintHasNoBar(Signed(cmd));
    PrintHasNoBar(Signed(index));
    SplitPlain(a, '_');
    SplitAppend(a, b, '_');
    assert [a] + [b] == [a, b];
    if cmd != CMD_FREQ_SET {
      assert '_' !in c;
      SplitAppend(a + "_" + b, c, '_');
      assert [a, b] + [c] == [a, b, c];
    }
  }

  /** The length of the stored text tells the two encodings apart. */
  lemma LengthTells(cmd: Byte, index: Byte, number: PhoneNumber)
    ensures |SingleText(cmd)| < 4
    ensures IsSetting(cmd) ==> |SettingText(cmd, index, number)| >= 4
  {
    hide Digits;
    DigitCount(cmd, 3);
    assert Power10(3) == 1000 by { assert Power10(2) == 100 by { assert Power10(1) == 10; } }
    DigitCount(cmd, 1);
    assert Power10(1) == 10 by { assert Power10(0) == 1; }
    assert |Print(Signed(index))| >= 1;
  }

  /** Every setting comes back as itself, but for letter nibbles of the number, which come back as zero. */
  lemma SettingDelivered(cmd: Byte, index: Byte, number: PhoneNumber)
    requires IsSetting(cmd)
    ensures var (result, info) := Deliver(SettingText(cmd, index, number), NO_INFO);
      ReplyOf(result, info) == ReplyFor(cmd, index, BcdParts(number))
  {
    hide Split, Print, Text, FromText, SettingText, Atoi;
    var stored := SettingText(cmd, index, number);
    LengthTells(cmd, index, number);
    SettingSplits(cmd, index, number);
    AtoiOfPrinted(Signed(cmd), []);
    AtoiOfPrinted(Signed(index), []);
    assert Print(Signed(cmd)) + [] == Print(Signed(cmd)) && Print(Signed(index)) + [] == Print(Signed(index));
    assert LowByte(Signed(index)) == index && LowByte(Signed(cmd)) == cmd == Signed(cmd);
    if cmd != CMD_FREQ_SET {
      assert Text(number)[..2 * LEN_PHONE_NUMBER] == Text(number);
      FromTextOfText(number);
    }
  }

  /** Every single command comes back as itself, and never looks like a setting. */
  lemma SingleDelivered(cmd: Byte, index: Byte, number: PhoneNumber)
    requires IsStored(cmd) && !IsSetting(cmd)
    ensures var (result, info) := Deliver(SingleText(cmd), NO_INFO);
      ReplyOf(result, info) == ReplyFor(cmd, index, number)
  {
    hide Print, Split, Atoi;
    LengthTells(cmd, index, number);
    AtoiOfPrinted(cmd, []);
    assert Print(cmd) + [] == Print(cmd);
  }

  /** The command round trip: whatever command is put in the mailbox is delivered as that command. */
  lemma CommandRoundTrip(cmd: Byte, index: Byte, number: PhoneNumber)
    requires IsStored(cmd)
    ensures var (result, info) := Deliver(StoredText(cmd, index, number), NO_INFO);
      ReplyOf(result, info) == ReplyFor(cmd, index, BcdParts(number))
  {
    hide Deliver, ReplyOf, ReplyFor, SettingText, SingleText;
    if IsSetting(cmd) {
      SettingDelivered(cmd, index, number);
    } else {
      SingleDelivered(cmd, index, BcdParts(number));
    }
  }

  /** The reply is the one for the number sent if and only if no number is sent or it is BCD. */
  lemma NumberIntact(cmd: Byte, index: Byte, number: PhoneNumber)
    ensures ReplyFor(cmd, index, BcdParts(number)) == ReplyFor(cmd, index, number) <==>
            !IsSetting(cmd) || cmd == CMD_FREQ_SET || IsBcd(number)
  {
    FromTextOfText(number);
    var a, b := ReplyFor(cmd, index, BcdParts(number)), ReplyFor(cmd, index, number);
    if a == b && IsSetting(cmd) && cmd != CMD_FREQ_SET {
      assert BcdParts(number) == a.buf[5..13] == b.buf[5..13] == number;
    }
  }
}
