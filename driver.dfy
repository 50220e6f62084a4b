/** The blocking driver for the BlackBerry Q10 keyboard at bus address 0x1F.
    Every operation writes a register-select byte (with 0x80 OR'd in for a
    register write), then, for a register read, reads the response into a
    zeroed buffer and, except for the backlight read, decodes it. Any bus failure becomes the one error `I2c`
    and ends the operation at once.

    Each operation is specified by a function on the stub's `Wire` state
    (`VersionOp`, ...), and the method on `Bbq10Kbd` is proved to behave
    exactly as that function says. */
module Driver {
  import opened Transport
  import opened Decode

  /** The keyboard's fixed bus address. */
  const KbdAddr: Byte := 0x1F

  const VersionRegister: Byte := 0x01
  const KeyStatusRegister: Byte := 0x04
  const BacklightRegisterRead: Byte := 0x05
  const ResetRegister: Byte := 0x08
  const FifoRegister: Byte := 0x09
  /** The backlight register with the write flag 0x80 set. */
  const BacklightRegisterWrite: Byte := 0x85

  /** The only error: the bus transport failed; its details are dropped. */
  datatype Error = I2c

  datatype Result<T> = Ok(value: T) | Err(error: Error)

  /** Byte `i` of a read reply, or 0 where the reply does not reach: the
      driver reads into a buffer it has zeroed first. */
  function ReplyByte(data: seq<Byte>, i: nat): Byte
  {
    if i < |data| then data[i] else 0
  }

  /** The answer of the second scripted reply, the one a register read's read gets. */
  function ReadReply(w: Wire): Reply
  {
    Next(Rest(w.script))
  }

  /** A register read: select `reg` with a one-byte write, then read `n` bytes
      into a zeroed buffer. A failed write issues no read. */
  function RegisterRead(w: Wire, reg: Byte, n: nat): (r: (Result<seq<Byte>>, Wire))
    ensures r.0.Ok? <==> Next(w.script).Ack? && ReadReply(w).Ack?
    ensures r.0.Ok? ==> |r.0.value| == n
    ensures r.0.Ok? ==> forall i :: 0 <= i < n ==> r.0.value[i] == ReplyByte(ReadReply(w).data, i)
    ensures r.0.Err? ==> r.0.error == I2c
    ensures Next(w.script).Nack? ==>
              r.1 == Wire(w.trace + [WriteEvent(KbdAddr, [reg])], Rest(w.script))
    ensures Next(w.script).Ack? ==>
              r.1 == Wire(w.trace + [WriteEvent(KbdAddr, [reg]), ReadEvent(KbdAddr, n)],
                          Rest(Rest(w.script)))
  {
    var (wrote, w1) := WriteStep(w, KbdAddr, [reg]);
    if !wrote then
      (Err(I2c), w1)
    else
      var (read, buf, w2) := ReadStep(w1, KbdAddr, seq(n, _ => 0));
      if read then (Ok(buf), w2) else (Err(I2c), w2)
  }

  /** A register write: one write of `bytes`, no read. */
  function RegisterWrite(w: Wire, bytes: seq<Byte>): (r: (Result<()>, Wire))
    ensures r.0.Ok? <==> Next(w.script).Ack?
    ensures r.0.Err? ==> r.0.error == I2c
    ensures r.1 == Wire(w.trace + [WriteEvent(KbdAddr, bytes)], Rest(w.script))
  {
    var (wrote, w1) := WriteStep(w, KbdAddr, bytes);
    (if wrote then Ok(()) else Err(I2c), w1)
  }

  /** The requests a register read of `reg` leaves on the bus: the select
      write, and the read of `n` bytes only when that write succeeded. */
  function ReadTraffic(w: Wire, reg: Byte, n: nat): seq<Event>
  {
    [WriteEvent(0x1F, [reg])] + (if Next(w.script).Ack? then [ReadEvent(0x1F, n)] else [])
  }

  function VersionOp(w: Wire): (r: (Result<Version>, Wire))
    ensures r.1.trace == w.trace + ReadTraffic(w, 0x01, 1)
    ensures r.1.script == if Next(w.script).Ack? then Rest(Rest(w.script)) else Rest(w.script)
    ensures r.0.Ok? <==> Next(w.script).Ack? && ReadReply(w).Ack?
    ensures r.0.Ok? ==> r.0.value == DecodeVersion(ReplyByte(ReadReply(w).data, 0))
  {
    var (raw, w') := RegisterRead(w, VersionRegister, 1);
    (if raw.Ok? then Ok(DecodeVersion(raw.value[0])) else Err(raw.error), w')
  }

  function FifoKeyRawOp(w: Wire): (r: (Result<KeyRaw>, Wire))
    ensures r.1.trace == w.trace + ReadTraffic(w, 0x09, 2)
    ensures r.1.script == if Next(w.script).Ack? then Rest(Rest(w.script)) else Rest(w.script)
    ensures r.0.Ok? <==> Next(w.script).Ack? && ReadReply(w).Ack?
    ensures r.0.Ok? ==> r.0.value == DecodeKeyRaw([ReplyByte(ReadReply(w).data, 0),
                                                   ReplyByte(ReadReply(w).data, 1)])
  {
    var (raw, w') := RegisterRead(w, FifoRegister, 2);
    (if raw.Ok? then Ok(DecodeKeyRaw(raw.value)) else Err(raw.error), w')
  }

  function BacklightGetOp(w: Wire): (r: (Result<Byte>, Wire))
    ensures r.1.trace == w.trace + ReadTraffic(w, 0x05, 1)
    ensures r.1.script == if Next(w.script).Ack? then Rest(Rest(w.script)) else Rest(w.script)
    ensures r.0.Ok? <==> Next(w.script).Ack? && ReadReply(w).Ack?
    ensures r.0.Ok? ==> r.0.value == ReplyByte(ReadReply(w).data, 0)
  {
    var (raw, w') := RegisterRead(w, BacklightRegisterRead, 1);
    (if raw.Ok? then Ok(raw.value[0]) else Err(raw.error), w')
  }

  function BacklightSetOp(w: Wire, level: Byte): (r: (Result<()>, Wire))
    ensures r.1.trace == w.trace + [WriteEvent(0x1F, [0x85, level])]
    ensures r.1.script == Rest(w.script)
    ensures r.0.Ok? <==> Next(w.script).Ack?
  {
    RegisterWrite(w, [BacklightRegisterWrite, level])
  }

  function ResetOp(w: Wire): (r: (Result<()>, Wire))
    ensures r.1.trace == w.trace + [WriteEvent(0x1F, [0x08])]
    ensures r.1.script == Rest(w.script)
    ensures r.0.Ok? <==> Next(w.script).Ack?
  {
    RegisterWrite(w, [ResetRegister])
  }

  function KeyStatusOp(w: Wire): (r: (Result<KeyStatus>, Wire))
    ensures r.1.trace == w.trace + ReadTraffic(w, 0x04, 1)
    ensures r.1.script == if Next(w.script).Ack? then Rest(Rest(w.script)) else Rest(w.script)
    ensures r.0.Ok? <==> Next(w.script).Ack? && ReadReply(w).Ack?
    ensures r.0.Ok? ==> r.0.value == DecodeKeyStatus(ReplyByte(ReadReply(w).data, 0))
  {
    var (raw, w') := RegisterRead(w, KeyStatusRegister, 1);
    (if raw.Ok? then Ok(DecodeKeyStatus(raw.value[0])) else Err(raw.error), w')
  }

  /** The driver: it owns the bus handle it was built from. */
  class Bbq10Kbd {
    var i2c: Bus

    constructor (i2c: Bus)
      ensures this.i2c == i2c
    {
      this.i2c := i2c;
    }

    /** Hands back the bus handle the driver was built from. */
    method Release() returns (h: Bus)
      ensures h == i2c
    {
      h := i2c;
    }

    method GetVersion() returns (r: Result<Version>)
      modifies i2c
      ensures (r, i2c.State()) == VersionOp(old(i2c.State()))
    {
      var buf := new Byte[1](_ => 0);
      buf[0] := VersionRegister;
      assert buf[..] == [VersionRegister];
      var ok := i2c.Write(KbdAddr, buf[..]);
      if !ok {
        return Err(I2c);
      }
      buf[0] := 0;
      ok := i2c.Read(KbdAddr, buf);
      if !ok {
        return Err(I2c);
      }
      var val := buf[0];
      r := Ok(DecodeVersion(val));
    }

    method GetFifoKeyRaw() returns (r: Result<KeyRaw>)
      modifies i2c
      ensures (r, i2c.State()) == FifoKeyRawOp(old(i2c.State()))
    {
      var buf := new Byte[2](_ => 0);
      buf[0] := FifoRegister;
      assert buf[..1] == [FifoRegister];
      var ok := i2c.Write(KbdAddr, buf[..1]);
      if !ok {
        return Err(I2c);
      }
      buf[0] := 0;
      ok := i2c.Read(KbdAddr, buf);
      if !ok {
        return Err(I2c);
      }
      r := Ok(DecodeKeyRaw(buf[..]));
    }

    method GetBacklight() returns (r: Result<Byte>)
      modifies i2c
      ensures (r, i2c.State()) == BacklightGetOp(old(i2c.State()))
    {
      var buf := new Byte[1](_ => 0);
      buf[0] := BacklightRegisterRead;
      assert buf[..] == [BacklightRegisterRead];
      var ok := i2c.Write(KbdAddr, buf[..]);
      if !ok {
        return Err(I2c);
      }
      buf[0] := 0;
      ok := i2c.Read(KbdAddr, buf);
      if !ok {
        return Err(I2c);
      }
      r := Ok(buf[0]);
    }

    method SetBacklight(level: Byte) returns (r: Result<()>)
      modifies i2c
      ensures (r, i2c.State()) == BacklightSetOp(old(i2c.State()), level)
    {
      var buf := new Byte[2](_ => 0);
      buf[0] := BacklightRegisterWrite;
      buf[1] := level;
      assert buf[..] == [BacklightRegisterWrite, level];
      var ok := i2c.Write(KbdAddr, buf[..]);
      r := if ok then Ok(()) else Err(I2c);
    }

    /** Resets the keyboard; it may take 10 ms or more to answer again. */
    method SwReset() returns (r: Result<()>)
      modifies i2c
      ensures (r, i2c.State()) == ResetOp(old(i2c.State()))
    {
      var buf := new Byte[1](_ => 0);
      buf[0] := ResetRegister;
      assert buf[..] == [ResetRegister];
      var ok := i2c.Write(KbdAddr, buf[..]);
      r := if ok then Ok(()) else Err(I2c);
    }

    method GetKeyStatus() returns (r: Result<KeyStatus>)
      modifies i2c
      ensures (r, i2c.State()) == KeyStatusOp(old(i2c.State()))
    {
      var buf := new Byte[1](_ => 0);
      buf[0] := KeyStatusRegister;
      assert buf[..] == [KeyStatusRegister];
      var ok := i2c.Write(KbdAddr, buf[..]);
      if !ok {
        return Err(I2c);
      }
      buf[0] := 0;
      ok := i2c.Read(KbdAddr, buf);
      if !ok {
        return Err(I2c);
      }
      r := Ok(DecodeKeyStatus(buf[0]));
    }
  }

  /** Building a driver and releasing it gives back the very same handle. */
  method NewThenRelease(h: Bus) returns (r: Bus)
    ensures r == h
  {
    var kbd := new Bbq10Kbd(h);
    r := kbd.Release();
  }

  /** The level of the last backlight write `[0x85, level]` in a bus history,
      that is, the level the keyboard holds; 0 when no level was written. */
  function LastLevel(t: seq<Event>): Byte
  {
    if t == [] then 0
    else
      var e := t[|t| - 1];
      if e.WriteEvent? && |e.bytes| == 2 && e.bytes[0] == 0x85 then e.bytes[1]
      else LastLevel(t[..|t| - 1])
  }

  /** Against a keyboard that acknowledges the backlight write and answers the
      next backlight read with the level it last received, reading the
      backlight back right after setting it yields the level set. */
  lemma SetThenGetBacklight(w: Wire, level: Byte)
    requires Next(w.script).Ack?
    requires var w1 := BacklightSetOp(w, level).1;
      Next(w1.script).Ack? && ReadReply(w1) == Ack([LastLevel(w1.trace)])
    ensures BacklightGetOp(BacklightSetOp(w, level).1).0 == Ok(level)
  {
  }

  /** The same on the driver object: a fresh stub, scripted so that its read
      reply is the level last written, sees exactly the backlight write and
      the backlight read, and the level read back is the level in that write. */
  method BacklightEcho(level: Byte) returns (r: Result<Byte>, bus: Bus)
    ensures bus.trace == [WriteEvent(0x1F, [0x85, level]), WriteEvent(0x1F, [0x05]), ReadEvent(0x1F, 1)]
    ensures r == Ok(LastLevel(bus.trace))
    ensures r == Ok(level)
  {
    bus := new Bus([Ack([]), Ack([]), Ack([level])]);
    var kbd := new Bbq10Kbd(bus);
    var _ := kbd.SetBacklight(level);
    r := kbd.GetBacklight();
    ghost var t := bus.trace;
    assert t[..2] == [WriteEvent(0x1F, [0x85, level]), WriteEvent(0x1F, [0x05])];
    assert t[..2][..1] == [WriteEvent(0x1F, [0x85, level])];
    assert LastLevel(t) == LastLevel(t[..2]) == LastLevel(t[..2][..1]) == level;
  }
}
