/** The keyboard's register contents as typed values, and the total decoders
    from raw bus bytes to them: the firmware version byte, a two-byte FIFO
    entry and the key status byte. Each decoder is paired with the encoding
    the firmware would use, and the two are proved inverse to each other. */
module Decode {
  import opened Transport

  /** Firmware version: the high and low nibble of the version register. */
  datatype Version = Version(major: Byte, minor: Byte)

  /** One key event from the firmware's FIFO. */
  datatype KeyRaw = Invalid | Pressed(key: Byte) | Held(key: Byte) | Released(key: Byte)

  datatype NumLockState = Off | On

  /** `Unknown` when the FIFO count may have rolled over into the caps-lock bit. */
  datatype CapsLockState = Off | On | Unknown

  /** Events waiting in the FIFO; `EmptyOr32` when the count may have rolled over. */
  datatype FifoCount = Known(count: Byte) | EmptyOr32

  datatype KeyStatus = KeyStatus(numLock: NumLockState, capsLock: CapsLockState, fifoCount: FifoCount)

  // ---------------------------------------------------------------- version

  /** The version register holds the major number in its high nibble and the
      minor number in its low nibble. */
  function EncodeVersion(v: Version): Byte
    requires v.major < 16 && v.minor < 16
  {
    (v.major << 4) | v.minor
  }

  function DecodeVersion(val: Byte): (v: Version)
    ensures v.major < 16 && v.minor < 16
    ensures EncodeVersion(v) == val
    ensures v.major as int * 16 + v.minor as int == val as int
  {
    Version((val & 0xF0) >> 4, val & 0x0F)
  }

  lemma VersionRoundTrip(v: Version)
    requires v.major < 16 && v.minor < 16
    ensures DecodeVersion(EncodeVersion(v)) == v
  {
  }

  // ------------------------------------------------------------- FIFO entry

  /** The event tag the firmware stores in the first byte of a FIFO entry. */
  function Tag(k: KeyRaw): (t: Byte)
    requires !k.Invalid?
  {
    match k
    case Pressed(_) => 1
    case Held(_) => 2
    case Released(_) => 3
  }

  /** The two-byte FIFO entry the firmware emits for a valid event. */
  function FifoEntry(k: KeyRaw): seq<Byte>
    requires !k.Invalid?
  {
    [Tag(k), k.key]
  }

  /** Decodes a FIFO entry `[tag, key]`; an unrecognised tag, 0 included, is `Invalid`. */
  function DecodeKeyRaw(entry: seq<Byte>): (k: KeyRaw)
    requires |entry| == 2
    ensures k.Invalid? <==> entry[0] !in {1, 2, 3}
    ensures !k.Invalid? ==> FifoEntry(k) == entry
  {
    match entry[0]
    case 1 => Pressed(entry[1])
    case 2 => Held(entry[1])
    case 3 => Released(entry[1])
    case _ => Invalid
  }

  lemma KeyRawRoundTrip(k: KeyRaw)
    requires !k.Invalid?
    ensures DecodeKeyRaw(FifoEntry(k)) == k
  {
  }

  // ------------------------------------------------------------- key status

  /** A status the decoder can produce: the ambiguous count and the unknown
      caps-lock state go together, a known count fits in five bits, and
      caps-lock reads as on only beside a non-zero count. */
  predicate WellFormedStatus(s: KeyStatus)
  {
    && (s.capsLock == CapsLockState.Unknown <==> s.fifoCount == EmptyOr32)
    && (s.fifoCount.Known? ==> s.fifoCount.count < 32)
    && (s.capsLock == CapsLockState.On ==> s.fifoCount.count != 0)
  }

  /** The status byte for a status: bit 6 num-lock, bit 5 caps-lock, bits 4..0
      the FIFO count; the ambiguous state is caps-lock set over a zero count. */
  function EncodeKeyStatus(s: KeyStatus): Byte
  {
    (if s.numLock == NumLockState.On then 0x40 else 0)
    | (if s.capsLock != CapsLockState.Off then 0x20 else 0)
    | (if s.fifoCount.Known? then s.fifoCount.count & 0x1F else 0)
  }

  function DecodeKeyStatus(status: Byte): (s: KeyStatus)
    ensures s.numLock == NumLockState.On <==> (status & 0x40) != 0
    ensures (status & 0x20) != 0 && (status & 0x1F) == 0 ==>
              s.capsLock == CapsLockState.Unknown && s.fifoCount == EmptyOr32
    ensures (status & 0x20) != 0 && (status & 0x1F) != 0 ==>
              s.capsLock == CapsLockState.On && s.fifoCount == Known(status & 0x1F)
    ensures (status & 0x20) == 0 ==>
              s.capsLock == CapsLockState.Off && s.fifoCount == Known(status & 0x1F)
    ensures WellFormedStatus(s)
    ensures EncodeKeyStatus(s) == status & 0x7F
  {
    var numLock := if (status & 0x40) != 0 then NumLockState.On else NumLockState.Off;
    // Bit 6 is cleared before the rest of the byte is interpreted.
    var resp := status & 0xBF;
    var capsLock := (resp & 0x20) != 0;
    var fifoCt := resp & 0x1F;
    if capsLock && fifoCt == 0 then
      KeyStatus(numLock, CapsLockState.Unknown, EmptyOr32)
    else if capsLock then
      KeyStatus(numLock, CapsLockState.On, Known(fifoCt))
    else
      KeyStatus(numLock, CapsLockState.Off, Known(fifoCt))
  }

  lemma KeyStatusRoundTrip(s: KeyStatus)
    requires WellFormedStatus(s)
    ensures DecodeKeyStatus(EncodeKeyStatus(s)) == s
  {
  }

  /** Bit 6 decides num-lock alone: flipping it changes nothing else. */
  lemma NumLockIndependent(status: Byte)
    ensures DecodeKeyStatus(status ^ 0x40).numLock != DecodeKeyStatus(status).numLock
    ensures DecodeKeyStatus(status ^ 0x40).capsLock == DecodeKeyStatus(status).capsLock
    ensures DecodeKeyStatus(status ^ 0x40).fifoCount == DecodeKeyStatus(status).fifoCount
  {
  }

  /** Bit 7 carries nothing the decoder looks at. */
  lemma Bit7Ignored(status: Byte)
    ensures DecodeKeyStatus(status ^ 0x80) == DecodeKeyStatus(status)
  {
  }

  /** The status byte as the firmware forms it: the lock flags OR'd with a FIFO
      length that can reach 32, in which case it spills into the caps-lock bit. */
  function FirmwareStatus(numLock: bool, capsLock: bool, len: nat): Byte
    requires len <= 32
  {
    (if numLock then 0x40 else 0) | (if capsLock then 0x20 else 0) | (len as Byte)
  }

  /** Decoding never misreports the firmware's state: num-lock is exact, a
      known count is the true length with the true caps-lock state, and the
      ambiguous answer comes exactly when the FIFO holds 32 events or holds
      none with caps-lock on. */
  lemma RolloverIsFlagged(numLock: bool, capsLock: bool, len: nat)
    requires len <= 32
    ensures var s := DecodeKeyStatus(FirmwareStatus(numLock, capsLock, len));
      && (s.numLock == NumLockState.On <==> numLock)
      && (s.fifoCount == EmptyOr32 <==> len == 32 || (capsLock && len == 0))
      && (s.fifoCount.Known? ==>
            s.fifoCount.count as int == len && (s.capsLock == CapsLockState.On <==> capsLock))
  {
  }

  /** Worked examples: the ambiguous status, a plain status, a held key and a version. */
  lemma DecodeExamples()
    ensures DecodeKeyStatus(0x60)
      == KeyStatus(NumLockState.On, CapsLockState.Unknown, EmptyOr32)
    ensures DecodeKeyStatus(0x05)
      == KeyStatus(NumLockState.Off, CapsLockState.Off, Known(5))
    ensures DecodeKeyRaw([2, 0x41]) == Held(0x41)
    ensures DecodeVersion(0x23) == Version(2, 3)
  {
  }
}
