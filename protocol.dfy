/** The register protocol over any sequence of driver calls: whatever the
    calls and whatever the bus answers, every request goes to 0x1F, every
    write is one the driver defines, and every read directly follows the
    one-byte write that selects its register and asks for that register's
    response length. */
module Protocol {
  import opened Transport
  import opened Driver

  /** A call a client makes on the driver. */
  datatype Command =
    | ReadVersion
    | ReadFifo
    | ReadBacklight
    | WriteBacklight(level: Byte)
    | Reset
    | ReadKeyStatus

  /** The bus state after one call. */
  function Exec(w: Wire, c: Command): Wire
  {
    match c
    case ReadVersion => VersionOp(w).1
    case ReadFifo => FifoKeyRawOp(w).1
    case ReadBacklight => BacklightGetOp(w).1
    case WriteBacklight(level) => BacklightSetOp(w, level).1
    case Reset => ResetOp(w).1
    case ReadKeyStatus => KeyStatusOp(w).1
  }

  /** The bus state after the calls `cs`, in order. */
  function Run(w: Wire, cs: seq<Command>): Wire
    decreases |cs|
  {
    if cs == [] then w else Run(Exec(w, cs[0]), cs[1..])
  }

  /** How many bytes a read of register `reg` takes; 0 for a register the
      driver never reads. */
  function ResponseLength(reg: Byte): nat
  {
    if reg == 0x09 then 2
    else if reg == 0x01 || reg == 0x04 || reg == 0x05 then 1
    else 0
  }

  /** The writes the driver issues: a register select, or the backlight
      register with its write flag followed by a level. */
  predicate DriverWrite(bytes: seq<Byte>)
  {
    || (|bytes| == 1 && (ResponseLength(bytes[0]) > 0 || bytes[0] == 0x08))
    || (|bytes| == 2 && bytes[0] == 0x85)
  }

  /** A read is well placed when the request before it selected a readable
      register and the read asks for that register's length. */
  predicate ReadFollowsSelect(t: seq<Event>, i: int)
    requires 0 <= i < |t| && t[i].ReadEvent?
  {
    && 0 < i
    && t[i - 1].WriteEvent?
    && |t[i - 1].bytes| == 1
    && t[i].len == ResponseLength(t[i - 1].bytes[0]) > 0
  }

  predicate DriverTraffic(t: seq<Event>)
  {
    && (forall i :: 0 <= i < |t| ==> t[i].addr == KbdAddr)
    && (forall i :: 0 <= i < |t| && t[i].WriteEvent? ==> DriverWrite(t[i].bytes))
    && (forall i :: 0 <= i < |t| && t[i].ReadEvent? ==> ReadFollowsSelect(t, i))
  }

  /** Two runs of driver traffic make one, provided the second does not open
      with a read. */
  lemma AppendTraffic(a: seq<Event>, b: seq<Event>)
    requires DriverTraffic(a) && DriverTraffic(b)
    requires b != [] ==> b[0].WriteEvent?
    ensures DriverTraffic(a + b)
  {
    var t := a + b;
    forall i | 0 <= i < |t| && t[i].ReadEvent?
      ensures ReadFollowsSelect(t, i)
    {
      if i < |a| {
        assert ReadFollowsSelect(a, i);
      } else {
        assert t[i] == b[i - |a|];
        assert ReadFollowsSelect(b, i - |a|);
        assert t[i - 1] == b[i - |a| - 1];
      }
    }
  }

  /** The requests of one register read are driver traffic. */
  lemma ReadTrafficIsDriverTraffic(w: Wire, reg: Byte, n: nat)
    requires ResponseLength(reg) == n > 0
    ensures DriverTraffic(ReadTraffic(w, reg, n))
    ensures ReadTraffic(w, reg, n)[0].WriteEvent?
  {
  }

  /** One call keeps the trace driver traffic and adds at least its register write. */
  lemma ExecTraffic(w: Wire, c: Command)
    requires DriverTraffic(w.trace)
    ensures DriverTraffic(Exec(w, c).trace)
    ensures |Exec(w, c).trace| > |w.trace|
    ensures Exec(w, c).trace[..|w.trace|] == w.trace
  {
    match c
    case ReadVersion =>
      ReadTrafficIsDriverTraffic(w, 0x01, 1);
      AppendTraffic(w.trace, ReadTraffic(w, 0x01, 1));
    case ReadFifo =>
      ReadTrafficIsDriverTraffic(w, 0x09, 2);
      AppendTraffic(w.trace, ReadTraffic(w, 0x09, 2));
    case ReadBacklight =>
      ReadTrafficIsDriverTraffic(w, 0x05, 1);
      AppendTraffic(w.trace, ReadTraffic(w, 0x05, 1));
    case WriteBacklight(level) =>
      AppendTraffic(w.trace, [WriteEvent(0x1F, [0x85, level])]);
    case Reset =>
      AppendTraffic(w.trace, [WriteEvent(0x1F, [0x08])]);
    case ReadKeyStatus =>
      ReadTrafficIsDriverTraffic(w, 0x04, 1);
      AppendTraffic(w.trace, ReadTraffic(w, 0x04, 1));
  }

  /** Any sequence of calls, from a bus whose history is driver traffic,
      leaves driver traffic behind: the history is only extended, and each
      call puts at least one request on the bus. */
  lemma {:induction false} RunTraffic(w: Wire, cs: seq<Command>)
    requires DriverTraffic(w.trace)
    ensures DriverTraffic(Run(w, cs).trace)
    ensures |Run(w, cs).trace| >= |w.trace| + |cs|
    ensures Run(w, cs).trace[..|w.trace|] == w.trace
    decreases |cs|
  {
    if cs != [] {
      var w1 := Exec(w, cs[0]);
      ExecTraffic(w, cs[0]);
      RunTraffic(w1, cs[1..]);
      assert Run(w, cs) == Run(w1, cs[1..]);
      assert Run(w, cs).trace[..|w1.trace|] == w1.trace;
      assert w1.trace[..|w.trace|] == w.trace;
    }
  }

  /** A fresh stub's history, empty, is driver traffic, so every session of
      calls on a new driver stays within the protocol. */
  lemma SessionTraffic(script: seq<Reply>, cs: seq<Command>)
    ensures DriverTraffic(Run(Wire([], script), cs).trace)
  {
    RunTraffic(Wire([], script), cs);
  }
}
