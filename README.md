# bbq10kbd in Dafny

A model of the blocking `embedded-hal` driver for the BlackBerry Q10 PMOD
keyboard, which sits on the I2C bus at address 0x1F. The driver offers six
register operations: read the firmware version, pop one raw key event from the
FIFO, read and set the backlight level, reset the keyboard, and read the key
status. Each one writes a register-select byte to 0x1F, with the write flag 0x80
OR'd in for a register write. A read operation then reads one or two bytes into
a zeroed buffer. The version, FIFO and status reads decode those bytes; the
backlight read returns its byte as it is. Any bus failure becomes the single error `I2c`
and ends the operation at once.

Files and modules:

- `transport.dfy`, module `Transport`: bytes (`bv8`), and a stub bus `Bus` that
  stands in for the `embedded_hal` `Read + Write` handle. It records every
  request in `trace`, as a `WriteEvent(addr, bytes)` or a
  `ReadEvent(addr, len)`. It answers each request with the next entry of
  `script`: `Nack` fails, `Ack(data)` succeeds, and an empty script fails.
  A successful read copies the reply's bytes over the start of the caller's
  buffer.
- `decode.dfy`, module `Decode`: the value types `Version`, `KeyRaw`,
  `NumLockState`, `CapsLockState`, `FifoCount` and `KeyStatus`. It also holds
  the three total decoders, taken out of the methods where the driver writes
  them inline. Each decoder has the encoding the firmware would use as its
  partner, and round-trip lemmas connect the two.
- `driver.dfy`, module `Driver`: the register constants, `Error` and `Result`.
  For each operation it has a function on the stub's state (`VersionOp`, ...)
  that gives the result and the requests left on the bus. The class `Bbq10Kbd`
  owns the bus handle. Its methods do what the Rust methods do, step by step, on
  a local `array` buffer, and each is proved equal to its function.
- `protocol.dfy`, module `Protocol`: any sequence of driver calls, under any
  bus answers. It proves that the traffic never leaves the register protocol.

## Model

| member | source | states |
|---|---|---|
| `Decode.DecodeVersion` | src/lib.rs:125-130 | both nibbles are below 16; the high nibble times 16 plus the low nibble is the byte; re-encoding the version gives back the byte |
| `Decode.VersionRoundTrip` | src/lib.rs:125-130 | every version with nibble-sized fields survives encode-then-decode |
| `Decode.DecodeKeyRaw` | src/lib.rs:149-154 | the event is `Invalid` exactly when the tag is not 1, 2 or 3; otherwise it is the event whose firmware entry is exactly `[tag, key]`, which means Pressed, Held or Released for tag 1, 2 or 3, with the key byte |
| `Decode.KeyRawRoundTrip` | src/lib.rs:149-154 | every valid event decodes back from its firmware FIFO entry |
| `Decode.DecodeKeyStatus` | src/lib.rs:220-253 | num-lock is on iff bit 6 is set; bit 5 set over a zero count gives `Unknown`/`EmptyOr32`; bit 5 set over a count n > 0 gives `On`/`Known(n)`; bit 5 clear gives `Off`/`Known(n)`; a known count is below 32; re-encoding gives back the byte with bit 7 cleared |
| `Decode.KeyStatusRoundTrip` | src/lib.rs:232-253 | every status the decoder can produce decodes back from its status byte |
| `Decode.NumLockIndependent` | src/lib.rs:222-229 | flipping bit 6 flips num-lock and changes neither caps-lock nor the FIFO count |
| `Decode.Bit7Ignored` | src/lib.rs:227-230 | flipping bit 7 never changes the decoded status |
| `Decode.RolloverIsFlagged` | src/lib.rs:57-84 | for a FIFO length that rolls over into the caps-lock bit: num-lock is exact; a known count is the true length with the true caps-lock state; `EmptyOr32` comes exactly when the FIFO holds 32 events, or holds none with caps-lock on |
| `Decode.DecodeExamples` | src/lib.rs:125-253 | status 0x60 is num-lock on with `Unknown`/`EmptyOr32`; status 0x05 is `Off`/`Off`/`Known(5)`; FIFO entry `[2, 0x41]` is `Held(0x41)`; version byte 0x23 is 2.3 |
| `Driver.RegisterRead` | src/lib.rs:109-123 | a register read writes `[reg]` to 0x1F. If the write fails, the result is `I2c` and no read follows. Otherwise it reads `n` bytes from 0x1F. It succeeds iff both requests succeed, and then returns the reply's bytes over zeros |
| `Driver.RegisterWrite` | src/lib.rs:176-186 | a register write sends exactly its bytes to 0x1F and reads nothing; it fails with `I2c` iff the bus fails |
| `Driver.VersionOp` | src/lib.rs:109-131 | writes `[0x01]` to 0x1F, then reads 1 byte only if that write succeeded; uses two replies, or one when the write fails; on success returns the decoded reply byte |
| `Driver.FifoKeyRawOp` | src/lib.rs:133-155 | writes `[0x09]` to 0x1F, then reads 2 bytes only if that write succeeded; uses two replies, or one when the write fails; on success returns the decoded pair |
| `Driver.BacklightGetOp` | src/lib.rs:157-174 | writes `[0x05]` to 0x1F, then reads 1 byte only if that write succeeded; uses two replies, or one when the write fails; on success returns the byte read, unchanged |
| `Driver.BacklightSetOp` | src/lib.rs:176-186 | the only request is the write `[0x85, level]` to 0x1F, and it uses one reply; succeeds iff the bus does |
| `Driver.ResetOp` | src/lib.rs:188-202 | the only request is the write `[0x08]` to 0x1F, and it uses one reply; succeeds iff the bus does |
| `Driver.KeyStatusOp` | src/lib.rs:204-255 | writes `[0x04]` to 0x1F, then reads 1 byte only if that write succeeded; uses two replies, or one when the write fails; on success returns the decoded status byte |
| `Driver.Bbq10Kbd.constructor` | src/lib.rs:98-103 | the driver holds the handle it is given |
| `Driver.Bbq10Kbd.Release` | src/lib.rs:105-107 | returns the handle the driver holds |
| `Driver.Bbq10Kbd.GetVersion` | src/lib.rs:109-131 | the result and the new bus state are exactly those of `VersionOp` on the old bus state |
| `Driver.Bbq10Kbd.GetFifoKeyRaw` | src/lib.rs:133-155 | the result and the new bus state are exactly those of `FifoKeyRawOp` |
| `Driver.Bbq10Kbd.GetBacklight` | src/lib.rs:157-174 | the result and the new bus state are exactly those of `BacklightGetOp` |
| `Driver.Bbq10Kbd.SetBacklight` | src/lib.rs:176-186 | the result and the new bus state are exactly those of `BacklightSetOp` |
| `Driver.Bbq10Kbd.SwReset` | src/lib.rs:188-202 | the result and the new bus state are exactly those of `ResetOp` |
| `Driver.Bbq10Kbd.GetKeyStatus` | src/lib.rs:204-255 | the result and the new bus state are exactly those of `KeyStatusOp` |
| `Driver.NewThenRelease` | src/lib.rs:98-107 | releasing a newly built driver returns the very handle it was built from |
| `Driver.SetThenGetBacklight` | src/lib.rs:157-186 | against a keyboard that acknowledges the write and answers the next backlight read with the level of the last `[0x85, x]` write in the bus history, reading the backlight right after setting it returns the level set, for all 256 levels |
| `Driver.BacklightEcho` | src/lib.rs:157-186 | on the driver object over a fresh stub: the bus sees exactly `[0x85, level]`, `[0x05]` and a 1-byte read, and the level read back equals the level in the last backlight write of that history, which is `level` |
| `Protocol.ExecTraffic` | src/lib.rs:94-257 | one driver call keeps the bus history within the protocol. It only appends to the history, and it appends at least one request |
| `Protocol.RunTraffic` | src/lib.rs:94-257 | after any sequence of calls, under any bus answers, all three rules hold. Every request goes to 0x1F. Every write is a register select, or `0x85` followed by a level. Every read directly follows the one-byte select of a readable register and asks for that register's response length. The history is only extended, by at least one request per call |
| `Protocol.SessionTraffic` | src/lib.rs:94-257 | every session of calls on a fresh bus stays within the protocol |

## Left out

- The suspend-capable driver in `src/async.rs` is not modelled. Its register
  constants and its decoders live in a `register` module and in
  `from_byte`/`from_bytes` impls that `src/lib.rs` does not define. Its four reads
  would do the same write-then-read as one bus transaction. Its
  `set_backlight` and `sw_reset` are plain writes, as in the blocking driver.
- The real `embedded_hal` `Read`/`Write` implementations are not modelled. The
  bus is a scripted stub, and the transport's own error values are not
  modelled, since the driver drops them. The stub records a request even when
  it fails.
- The driver is generic over any `I2C: Read + Write` type. The model fixes
  that type to the stub class.
- `release` takes the driver by value in Rust, so the driver cannot be used
  afterwards. Dafny has no move semantics, so the model only proves that the
  same handle comes back.
- The reset's 10 ms unresponsive window is timing that the code does not
  enforce, so the model does not cover it.
- `#[derive(Debug)]`, `no_std` and the privacy of `KeyStatus`'s fields are
  not modelled.
