/** The packets as they go over the network, byte by byte: what sender and receivers have to agree on. The
    numbers in this file are the protocol's own; nothing here depends on the code's constants. */
module Wire {
  import opened Bytes

  /** A block packet: 'V', the device number, two bytes of date, the packet's number, flag, packet count,
      length and payload. */
  function BlockPacket(id: seq<Byte>, index: Byte, flag: Byte, total: Byte, payload: seq<Byte>): seq<Byte>
    requires |id| == 8 && |payload| < 0x10000
  {
    [0x56] + id + [0x15, 0x09, 0, 0x02, index] + [0, 0, 0, 0, 0, 0] + [flag] + [0, 0, 0, 0, 0, 0, 0, 0] +
    [total, |payload| / 256, |payload| % 256] + payload
  }

  /** How many packets a file of n bytes takes, and the payload of packet k. */
  function PacketCount(n: nat): nat {
    (n + 991) / 992
  }

  function PayloadOf(file: seq<Byte>, k: nat): seq<Byte>
    requires k < PacketCount(|file|)
  {
    if |file| <= 992 * k + 992 then file[992 * k..] else file[992 * k..992 * k + 992]
  }

  /** Two decimal digits in a byte. */
  function BcdByte(n: nat): Byte
    requires n < 100
  {
    n / 10 * 16 + n % 10
  }

  /** What two decimal digits in a byte stand for. */
  function Decimal(b: int): int {
    b / 16 * 10 + b % 16
  }

  lemma DecimalOfBcd(n: nat)
    requires n < 100
    ensures Decimal(BcdByte(n)) == n && BcdByte(n) / 16 < 10 && BcdByte(n) % 16 < 10
  {
  }

  /** A phone number as eight decimal digits. */
  function Phone(n: nat): (b: seq<Byte>)
    requires n < 100000000
    ensures |b| == 4
  {
    [BcdByte(n / 100 / 100 / 100), BcdByte(n / 100 / 100 % 100), BcdByte(n / 100 % 100), BcdByte(n % 100)]
  }

  /** A signed 32-bit number, low byte first. */
  function Int32Bytes(n: int): (b: seq<Byte>)
    ensures |b| == 4
  {
    [n % 256, n / 256 % 256, n / 256 / 256 % 256, n / 256 / 256 / 256 % 256]
  }

  /** A phone's command in the packet buffer: 'C', phone, command, index, number; `rest` is what follows. */
  function CommandPacket(phone: nat, cmd: Byte, index: Byte, number: seq<Byte>, rest: seq<Byte>): (p: seq<Byte>)
    requires phone < 100000000 && |number| == 8 && |rest| >= 17
    ensures |p| == 15 + |rest|
  {
    [0x43] + Phone(phone) + [cmd, index] + number + rest
  }

  /** A device's heartbeat: 'H', device, information, three bytes not used, time stamp. */
  function Heartbeat(id: seq<Byte>, info: seq<Byte>, gap: seq<Byte>, time: int, rest: seq<Byte>): (p: seq<Byte>)
    requires |id| == 8 && |info| == 12 && |gap| == 3 && |rest| >= 4
    ensures |p| == 28 + |rest|
  {
    [0x48] + id + info + gap + Int32Bytes(time) + rest
  }

  /** A phone's poll: 'P' and the phone. */
  function PollPacket(phone: nat, rest: seq<Byte>): (p: seq<Byte>)
    requires phone < 100000000 && |rest| >= 27
    ensures |p| == 5 + |rest|
  {
    [0x50] + Phone(phone) + rest
  }

  /** A device's location: 'G' and the device. */
  function LocationPacket(id: seq<Byte>, rest: seq<Byte>): (p: seq<Byte>)
    requires |id| == 8 && |rest| >= 23
    ensures |p| == 9 + |rest|
  {
    [0x47] + id + rest
  }

  /** A device's download request: 'D', device, which file, 16 bytes in all. */
  function DownloadRequest(id: seq<Byte>, gap: seq<Byte>, which: Byte, rest: seq<Byte>): (p: seq<Byte>)
    requires |id| == 8 && |gap| == 4 && |rest| == 2
    ensures |p| == 16
  {
    [0x44] + id + gap + [which] + rest
  }
}
