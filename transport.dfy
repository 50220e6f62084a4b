/** The two-wire bus as the keyboard driver sees it: addressed byte writes and
    addressed reads into a caller's buffer. The real embedded-hal transport is
    replaced by a stub that records every request it is given and answers from
    a script, so that the driver's traffic and its failure paths can be stated. */
module Transport {

  /** An 8-bit unsigned value as it travels on the bus (Rust `u8`). */
  type Byte = bv8

  /** One request the driver put on the bus. */
  datatype Event =
    | WriteEvent(addr: Byte, bytes: seq<Byte>)
    | ReadEvent(addr: Byte, len: nat)

  /** What the stub answers to the next request: a failure, or success
      carrying the bytes a read receives (ignored by a write). */
  datatype Reply = Nack | Ack(data: seq<Byte>)

  /** The observable state of the stub: the requests so far, the answers to come. */
  datatype Wire = Wire(trace: seq<Event>, script: seq<Reply>)

  /** The answer to the next request; an exhausted script fails. */
  function Next(script: seq<Reply>): Reply
  {
    if script == [] then Nack else script[0]
  }

  /** The script once the next request has been answered. */
  function Rest(script: seq<Reply>): seq<Reply>
  {
    if script == [] then [] else script[1..]
  }

  /** The buffer `buf` after a successful read delivering `data`: the delivered
      bytes overwrite its prefix, positions beyond them keep their value. */
  function Fill(buf: seq<Byte>, data: seq<Byte>): seq<Byte>
  {
    seq(|buf|, i requires 0 <= i < |buf| => if i < |data| then data[i] else buf[i])
  }

  /** An addressed write: recorded, answered by the next scripted reply. */
  function WriteStep(w: Wire, addr: Byte, bytes: seq<Byte>): (bool, Wire)
  {
    (Next(w.script).Ack?, Wire(w.trace + [WriteEvent(addr, bytes)], Rest(w.script)))
  }

  /** An addressed read into `buf`: recorded with the buffer's length; on
      success the buffer is filled from the reply, on failure it is untouched. */
  function ReadStep(w: Wire, addr: Byte, buf: seq<Byte>): (bool, seq<Byte>, Wire)
  {
    var reply := Next(w.script);
    var w' := Wire(w.trace + [ReadEvent(addr, |buf|)], Rest(w.script));
    if reply.Ack? then (true, Fill(buf, reply.data), w') else (false, buf, w')
  }

  /** The stub transport handle that the driver owns. */
  class Bus {
    var trace: seq<Event>
    var script: seq<Reply>

    function State(): Wire
      reads this
    {
      Wire(trace, script)
    }

    constructor (script: seq<Reply>)
      ensures State() == Wire([], script)
    {
      this.trace := [];
      this.script := script;
    }

    method Write(addr: Byte, bytes: seq<Byte>) returns (ok: bool)
      modifies this
      ensures (ok, State()) == WriteStep(old(State()), addr, bytes)
    {
      ok := Next(script).Ack?;
      trace := trace + [WriteEvent(addr, bytes)];
      script := Rest(script);
    }

    method Read(addr: Byte, buf: array<Byte>) returns (ok: bool)
      modifies this, buf
      ensures (ok, buf[..], State()) == ReadStep(old(State()), addr, old(buf[..]))
    {
      var reply := Next(script);
      trace := trace + [ReadEvent(addr, buf.Length)];
      script := Rest(script);
      if reply.Nack? {
        return false;
      }
      forall i | 0 <= i < buf.Length && i < |reply.data| {
        buf[i] := reply.data[i];
      }
      assert buf[..] == Fill(old(buf[..]), reply.data);
      ok := true;
    }
  }
}
