/** How both receivers read a block packet: signed header fields, payload placement, file names. */
module BlockFormat {
  import opened Bytes
  import opened Packetiser

  const MULTICAST_TYPE_BLOCK: Byte := 0x31
  const MULTICAST_TYPE_AGPS: Byte := 0x32

  /** The two directories files are saved in and read from, with the device number as text. */
  datatype Path = BlockPath(device: string) | AgpsPath(device: string) {
    /** DATA_SAVE_TYPE is DISTRBUTE_SAVE, so both directories are absolute. */
    function Name(): string {
      match this
      case BlockPath(device) => "/usr/RServer/block_data/" + device
      case AgpsPath(device) => "/usr/RServer/agps_data/" + device + "_agps.dat"
    }
  }

  datatype File = File(path: Path, content: seq<Byte>)

  /** Different devices, and the two kinds of data of one device, never share a file. */
  lemma NamesDiffer(a: Path, b: Path)
    ensures a.Name() == b.Name() <==> a == b
  {
    assert a.Name()[13] == if a.BlockPath? then 'b' else 'a';
    assert b.Name()[13] == if b.BlockPath? then 'b' else 'a';
    if a.BlockPath? && b.BlockPath? && a.Name() == b.Name() {
      assert a.Name()[24..] == a.device && b.Name()[24..] == b.device;
    } else if a.AgpsPath? && b.AgpsPath? && a.Name() == b.Name() {
      assert a.Name()[23..|a.Name()| - 9] == a.device && b.Name()[23..|b.Name()| - 9] == b.device;
    }
  }

  /** A receive buffer: at least a whole header is always addressable. */
  type Frame = f: seq<Byte> | |f| >= HEADER witness Zeros(HEADER)

  function PktIndex(f: Frame): int { Signed(f[IDX_INDEX]) }
  function PktTotal(f: Frame): int { Signed(f[IDX_TOTAL]) }
  function DataLength(f: Frame): int { Signed(f[IDX_LENGTH]) * 256 + f[IDX_LENGTH + 1] }
  predicate IsLast(f: Frame) { PktIndex(f) + 1 == PktTotal(f) }
  function SenderId(f: Frame): DeviceId { f[IDX_DEVICE_ID..IDX_DEVICE_ID + DEVICE_ID] }

  /** Where the packet's payload starts in the block buffer. */
  function Base(f: Frame): int { PktIndex(f) * DATA }

  /** The copy loop stores a byte of `f` at position p of the block buffer. */
  predicate Covers(f: Frame, p: int) {
    Base(f) <= p < Base(f) + DataLength(f) && HEADER + p - Base(f) < |f|
  }

  type Buffer = b: seq<Byte> | |b| == BUFFER witness Zeros(BUFFER)

  /** The effect of the copy loop on the block buffer. */
  function Place(buffer: Buffer, f: Frame): Buffer {
    seq(BUFFER, p requires 0 <= p < BUFFER => if Covers(f, p) then f[HEADER + p - Base(f)] else buffer[p])
  }

  /** The bytes write_dat is given after the last packet. */
  function FileContent(buffer: Buffer, f: Frame): seq<Byte> {
    buffer[..Clip(Base(f) + DataLength(f))]
  }

  function Clip(n: int): (c: nat)
    ensures c <= BUFFER
    ensures 0 <= n <= BUFFER ==> c == n
  {
    if n < 0 then 0 else Min(n, BUFFER)
  }

  method CopyPayload(buffer: array<Byte>, f: array<Byte>)
    requires buffer.Length == BUFFER && f.Length >= HEADER && buffer != f
    modifies buffer
    ensures buffer[..] == Place(old(buffer[..]), f[..])
  {
    var base := PktIndex(f[..]) * DATA;
    var dataLength := DataLength(f[..]);
    ghost var frame := f[..];
    var i := 0;
    while i < dataLength
      invariant 0 <= i && (i <= dataLength || i == 0)
      invariant f[..] == frame
      invariant forall p :: 0 <= p < BUFFER ==>
        buffer[p] ==
           if base <= p < base + i && HEADER + p - base < f.Length then f[HEADER + p - base] else old(buffer[p])
    {
      if 0 <= base + i < BUFFER && HEADER + i < f.Length {
        buffer[base + i] := f[HEADER + i];
      }
      i := i + 1;
    }
  }
}
